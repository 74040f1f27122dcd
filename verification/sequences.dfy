/** Facts about sequences shared by the modules of the model. */
module Sequences {
  /** Concatenation is associative; called where an appended trace or buffer is regrouped. */
  lemma AppendAssoc<T>(a: seq<T>, b: seq<T>, c: seq<T>)
    ensures (a + b) + c == a + (b + c)
  {
  }
}
