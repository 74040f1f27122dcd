/** The settings translators of the session application (session-application.cpp): the
    setxkbmap argument vector, the Xcursor resource buffer handed to xrdb, the left-handed
    rewrite of the pointer button map, and the rule that fixes the configuration name.

    The X server's pointer map, the settings values and the environment are inputs; launching
    setxkbmap and xrdb is reported by a flag. */
module Session {
  import opened Wrappers
  import opened Sequences

  // ---------------------------------------------------------------------------------------
  // setxkbmap

  /** The keyboard settings setxkbmap receives. */
  datatype KeyboardLayout = KeyboardLayout(layout: string, variant: string, model: string, options: seq<string>)

  /** The flags of the setxkbmap command line. */
  const ModelFlag := "-model"
  const LayoutFlag := "-layout"
  const VariantFlag := "-variant"
  const OptionFlag := "-option"

  /** `-model m` when a model is set. */
  function ModelArgs(model: string): seq<string>
  {
    if model != "" then [ModelFlag, model] else []
  }

  /** `-layout l` when a layout is set, followed by `-variant v` when a variant is set too. */
  function LayoutArgs(layout: string, variant: string): seq<string>
  {
    if layout != "" then [LayoutFlag, layout] + (if variant != "" then [VariantFlag, variant] else []) else []
  }

  /** `-option o` for each option, in order. */
  function OptionArgs(options: seq<string>): seq<string>
  {
    if options == [] then [] else [OptionFlag, options[0]] + OptionArgs(options[1..])
  }

  /** The argument vector of setxkbmap. */
  function XkbArgs(layout: string, variant: string, model: string, options: seq<string>): seq<string>
  {
    ModelArgs(model) + LayoutArgs(layout, variant) + OptionArgs(options)
  }

  lemma {:induction false} OptionArgsSnoc(options: seq<string>, o: string)
    ensures OptionArgs(options + [o]) == OptionArgs(options) + [OptionFlag, o]
  {
    if options != [] {
      assert (options + [o])[1..] == options[1..] + [o];
      OptionArgsSnoc(options[1..], o);
    } else {
      assert OptionArgs([o]) == [OptionFlag, o] + OptionArgs([]);
    }
  }

  /** setxkbmap: builds the argument vector pair by pair, and starts setxkbmap only when the
      vector is not empty. */
  method Setxkbmap(layout: string, variant: string, model: string, options: seq<string>)
    returns (args: seq<string>, launched: bool)
    ensures args == XkbArgs(layout, variant, model, options)
    ensures launched <==> args != []
    ensures launched <==> model != "" || layout != "" || options != []
  {
    args := [];
    if model != "" {
      args := args + [ModelFlag];
      args := args + [model];
    }
    assert args == ModelArgs(model);
    if layout != "" {
      args := args + [LayoutFlag];
      args := args + [layout];
      if variant != "" {
        args := args + [VariantFlag];
        args := args + [variant];
      }
    }
    ghost var head := args;
    assert head == ModelArgs(model) + LayoutArgs(layout, variant);
    for i := 0 to |options|
      invariant args == head + OptionArgs(options[..i])
    {
      ghost var before := args;
      args := args + [OptionFlag];
      args := args + [options[i]];
      assert args == before + [OptionFlag, options[i]];
      OptionArgsSnoc(options[..i], options[i]);
      assert options[..i + 1] == options[..i] + [options[i]];
      AppendAssoc(head, OptionArgs(options[..i]), [OptionFlag, options[i]]);
    }
    assert options[..|options|] == options;
    launched := args != [];
    assert options != [] ==> |OptionArgs(options)| > 0;
  }

  /** Reads an argument vector back, pair by pair; None when it is not a sequence of known
      flag/value pairs. */
  function ParseXkbArgs(args: seq<string>): Option<KeyboardLayout>
    decreases |args|
  {
    if args == [] then Some(KeyboardLayout("", "", "", []))
    else if |args| == 1 then None
    else ApplyPair(args[0], args[1], ParseXkbArgs(args[2..]))
  }

  /** One flag/value pair read in front of the settings read from the rest. */
  function ApplyPair(flag: string, value: string, rest: Option<KeyboardLayout>): Option<KeyboardLayout>
  {
    match rest
    case None => None
    case Some(k) =>
      if flag == ModelFlag then Some(k.(model := value))
      else if flag == LayoutFlag then Some(k.(layout := value))
      else if flag == VariantFlag then Some(k.(variant := value))
      else if flag == OptionFlag then Some(k.(options := [value] + k.options))
      else None
  }

  lemma ParsePair(flag: string, value: string, rest: seq<string>)
    ensures ParseXkbArgs([flag, value] + rest) == ApplyPair(flag, value, ParseXkbArgs(rest))
  {
    assert ([flag, value] + rest)[2..] == rest;
  }

  lemma {:induction false} ParseOptionArgs(options: seq<string>)
    ensures ParseXkbArgs(OptionArgs(options)) == Some(KeyboardLayout("", "", "", options))
  {
    if options != [] {
      ParseOptionArgs(options[1..]);
      ParsePair(OptionFlag, options[0], OptionArgs(options[1..]));
      assert [options[0]] + options[1..] == options;
    }
  }

  /** The layout pairs and the option pairs read back as the layout, the variant when a layout
      is set, and the options. */
  lemma ParseLayoutArgs(layout: string, variant: string, options: seq<string>)
    ensures ParseXkbArgs(LayoutArgs(layout, variant) + OptionArgs(options)) ==
              Some(KeyboardLayout(layout, if layout == "" then "" else variant, "", options))
  {
    var opts := OptionArgs(options);
    ParseOptionArgs(options);
    var lv := LayoutArgs(layout, variant);
    if layout != "" {
      if variant != "" {
        var tail := [VariantFlag, variant] + opts;
        ParsePair(VariantFlag, variant, opts);
        assert ParseXkbArgs(tail) == Some(KeyboardLayout("", variant, "", options));
        ParsePair(LayoutFlag, layout, tail);
        assert ParseXkbArgs([LayoutFlag, layout] + tail) == Some(KeyboardLayout(layout, variant, "", options));
        assert lv + opts == [LayoutFlag, layout] + tail;
      } else {
        ParsePair(LayoutFlag, layout, opts);
        assert ParseXkbArgs([LayoutFlag, layout] + opts) == Some(KeyboardLayout(layout, "", "", options));
        assert lv + opts == [LayoutFlag, layout] + opts;
      }
    } else {
      assert lv + opts == opts;
    }
  }

  /** The argument vector carries the settings faithfully: reading it back gives the model,
      the layout and the options, and the variant exactly when a layout is set. */
  lemma XkbArgsRoundTrip(layout: string, variant: string, model: string, options: seq<string>)
    ensures ParseXkbArgs(XkbArgs(layout, variant, model, options)) ==
              Some(KeyboardLayout(layout, if layout == "" then "" else variant, model, options))
  {
    var rest := LayoutArgs(layout, variant) + OptionArgs(options);
    ParseLayoutArgs(layout, variant, options);
    var m := ModelArgs(model);
    AppendAssoc(m, LayoutArgs(layout, variant), OptionArgs(options));
    if model != "" {
      ParsePair(ModelFlag, model, rest);
    } else {
      assert m + rest == rest;
    }
  }

  lemma {:induction false} OptionArgsShape(options: seq<string>)
    ensures |OptionArgs(options)| == 2 * |options|
    ensures forall i :: 0 <= i < |options| ==>
              OptionArgs(options)[2 * i] == OptionFlag && OptionArgs(options)[2 * i + 1] == options[i]
  {
    if options != [] {
      OptionArgsShape(options[1..]);
      var rest := OptionArgs(options[1..]);
      assert OptionArgs(options) == [OptionFlag, options[0]] + rest;
      forall i | 1 <= i < |options|
        ensures OptionArgs(options)[2 * i] == OptionFlag && OptionArgs(options)[2 * i + 1] == options[i]
      {
        assert OptionArgs(options)[2 * i] == rest[2 * (i - 1)];
        assert OptionArgs(options)[2 * i + 1] == rest[2 * (i - 1) + 1];
      }
    }
  }

  /** The vector is a sequence of flag/value pairs, so its length is even, and it ends with
      the option pairs, in order. */
  lemma XkbArgsEndsWithOptions(layout: string, variant: string, model: string, options: seq<string>)
    ensures var a := XkbArgs(layout, variant, model, options);
      && |a| % 2 == 0 && |a| >= 2 * |options|
      && (forall i :: 0 <= i < |options| ==>
            a[|a| - 2 * |options| + 2 * i] == OptionFlag && a[|a| - 2 * |options| + 2 * i + 1] == options[i])
  {
    var a := XkbArgs(layout, variant, model, options);
    OptionArgsShape(options);
    var opts := OptionArgs(options);
    var head := ModelArgs(model) + LayoutArgs(layout, variant);
    assert a == head + opts;
    assert |head| % 2 == 0 by {
      assert |ModelArgs(model)| % 2 == 0 && |LayoutArgs(layout, variant)| % 2 == 0;
    }
    var start := |a| - 2 * |options|;
    assert start == |head|;
    forall i | 0 <= i < |options|
      ensures a[start + 2 * i] == OptionFlag && a[start + 2 * i + 1] == options[i]
    {
      assert a[start + 2 * i] == opts[2 * i];
      assert a[start + 2 * i + 1] == opts[2 * i + 1];
    }
  }

  /** `-model m` comes first, and exactly when a model is set. */
  lemma XkbArgsModelFirst(layout: string, variant: string, model: string, options: seq<string>)
    ensures var a := XkbArgs(layout, variant, model, options);
      && (model != "" <==> |a| >= 2 && a[0] == ModelFlag)
      && (model != "" ==> a[1] == model)
  {
    var a := XkbArgs(layout, variant, model, options);
    var lv, opts := LayoutArgs(layout, variant), OptionArgs(options);
    OptionArgsShape(options);
    if model == "" {
      assert a == lv + opts;
      if |lv| > 0 {
        assert a[0] == lv[0];
      } else if |opts| > 0 {
        assert a[0] == opts[0];
      }
    }
  }

  /** `-variant v` appears only when both a layout and a variant are set, right after the
      layout pair. */
  lemma XkbArgsVariantAfterLayout(layout: string, variant: string, model: string, options: seq<string>)
    ensures var a := XkbArgs(layout, variant, model, options);
      forall i :: 0 <= i < |a| / 2 && a[2 * i] == VariantFlag ==>
        0 < i && a[2 * i - 2] == LayoutFlag && a[2 * i - 1] == layout && a[2 * i + 1] == variant
        && layout != "" && variant != ""
  {
    var a := XkbArgs(layout, variant, model, options);
    forall i | 0 <= i < |a| / 2
      ensures a[2 * i] == VariantFlag ==>
        0 < i && a[2 * i - 2] == LayoutFlag && a[2 * i - 1] == layout && a[2 * i + 1] == variant
        && layout != "" && variant != ""
    {
      VariantPairAt(layout, variant, model, options, i);
    }
  }

  lemma VariantPairAt(layout: string, variant: string, model: string, options: seq<string>, i: nat)
    requires 2 * i + 1 < |XkbArgs(layout, variant, model, options)|
    ensures var a := XkbArgs(layout, variant, model, options);
      a[2 * i] == VariantFlag ==>
        0 < i && a[2 * i - 2] == LayoutFlag && a[2 * i - 1] == layout && a[2 * i + 1] == variant
        && layout != "" && variant != ""
  {
    var a := XkbArgs(layout, variant, model, options);
    var m, lv, opts := ModelArgs(model), LayoutArgs(layout, variant), OptionArgs(options);
    if 2 * i < |m| {
      assert a[2 * i] == m[2 * i] == ModelFlag;
    } else if 2 * i < |m| + |lv| {
      var j := 2 * i - |m|;
      assert a[2 * i] == lv[j];
      if j == 2 {
        assert a[2 * i - 2] == lv[0] && a[2 * i - 1] == lv[1] && a[2 * i + 1] == lv[3];
      } else {
        assert lv[j] == LayoutFlag;
      }
    } else {
      OptionArgsShape(options);
      var k := (2 * i - |m| - |lv|) / 2;
      assert a[2 * i] == opts[2 * k] == OptionFlag;
    }
  }

  // ---------------------------------------------------------------------------------------
  // The Xcursor resources

  /** QByteArray::number on a non-negative value: its decimal digits, without leading
      zeros. */
  function Decimal(n: nat): string
  {
    if n < 10 then [Digit(n)] else Decimal(n / 10) + [Digit(n % 10)]
  }

  /** The character of a decimal digit. */
  function Digit(d: nat): char
    requires d < 10
  {
    ('0' as int + d) as char
  }

  function DigitValue(c: char): nat
  {
    if '0' <= c <= '9' then c as int - '0' as int else 0
  }

  /** Reads decimal digits back. */
  function ParseDecimal(s: string): nat
  {
    if s == [] then 0 else 10 * ParseDecimal(s[..|s| - 1]) + DigitValue(s[|s| - 1])
  }

  /** A number written by Decimal is all digits and reads back as itself. */
  lemma {:induction false} DecimalRoundTrip(n: nat)
    ensures Decimal(n) != []
    ensures forall i :: 0 <= i < |Decimal(n)| ==> '0' <= Decimal(n)[i] <= '9'
    ensures ParseDecimal(Decimal(n)) == n
  {
    if n >= 10 {
      DecimalRoundTrip(n / 10);
      var s := Decimal(n);
      assert s[..|s| - 1] == Decimal(n / 10);
    }
  }

  /** The resource names of the cursor settings, and the value of the theme_core line. */
  const ThemeKey := "Xcursor.theme"
  const SizeKey := "Xcursor.size"
  const ThemeCoreKey := "Xcursor.theme_core"
  const ThemeCoreValue := "true"

  /** One X resource line: name, colon, value, newline. */
  function ResourceLine(key: string, value: string): string
  {
    key + ":" + value + "\n"
  }

  /** A resource line written only when its value is present. */
  function OptionalLine(key: string, value: Option<string>): string
  {
    if value.Some? then ResourceLine(key, value.value) else ""
  }

  /** The theme value, present when a theme is set. */
  function ThemeValue(theme: string): Option<string>
  {
    if theme != "" then Some(theme) else None
  }

  /** The size value, present when the size is positive. */
  function SizeValue(size: int): Option<string>
  {
    if size > 0 then Some(Decimal(size)) else None
  }

  /** Two optional resource lines, closed by a third line that is written only when one of
      the two was. */
  function ClosedBuffer(k1: string, v1: Option<string>, k2: string, v2: Option<string>, k3: string, v3: string): string
  {
    var lines := OptionalLine(k1, v1) + OptionalLine(k2, v2);
    if lines != "" then lines + ResourceLine(k3, v3) else ""
  }

  /** The buffer loadMouseSettings hands to xrdb: the theme and size lines, and then, only when
      one of them was written, the line that makes the core cursors themed too. */
  function CursorResources(theme: string, size: int): string
  {
    ClosedBuffer(ThemeKey, ThemeValue(theme), SizeKey, SizeValue(size), ThemeCoreKey, ThemeCoreValue)
  }

  /** The cursor part of loadMouseSettings: the buffer is built line by line, and xrdb is run on
      it only when it is not empty. */
  method LoadCursorSettings(theme: string, size: int) returns (buf: string, merged: bool)
    ensures buf == CursorResources(theme, size)
    ensures merged <==> buf != ""
    ensures merged <==> theme != "" || size > 0
  {
    buf := "";
    if theme != "" {
      buf := buf + ResourceLine(ThemeKey, theme);
    }
    if size > 0 {
      buf := buf + ResourceLine(SizeKey, Decimal(size));
    }
    assert buf == OptionalLine(ThemeKey, ThemeValue(theme)) + OptionalLine(SizeKey, SizeValue(size));
    merged := false;
    if buf != "" {
      buf := buf + ResourceLine(ThemeCoreKey, ThemeCoreValue);
      merged := true;
    }
  }

  /** The index of the first `c` in `s`, or |s|. */
  function IndexOf(s: string, c: char): (r: nat)
    ensures r <= |s|
    ensures forall i :: 0 <= i < r ==> s[i] != c
    ensures r < |s| ==> s[r] == c
  {
    if s == [] then 0 else if s[0] == c then 0 else 1 + IndexOf(s[1..], c)
  }

  /** Reads a resource buffer back as (name, value) lines, the way xrdb splits them: each line
      ends with a newline and its name ends at the first colon. */
  function ParseResources(buf: string): Option<seq<(string, string)>>
    decreases |buf|
  {
    if buf == [] then Some([])
    else
      var nl := IndexOf(buf, '\n');
      if nl == |buf| then None
      else
        var line := buf[..nl];
        var colon := IndexOf(line, ':');
        if colon == |line| then None
        else
          match ParseResources(buf[nl + 1..])
          case None => None
          case Some(rest) => Some([(line[..colon], line[colon + 1..])] + rest)
  }

  /** The value of the first line with the given name. */
  function Lookup(entries: seq<(string, string)>, key: string): Option<string>
  {
    if entries == [] then None
    else if entries[0].0 == key then Some(entries[0].1)
    else Lookup(entries[1..], key)
  }

  lemma {:induction false} IndexOfFirst(a: string, c: char, b: string)
    requires forall i :: 0 <= i < |a| ==> a[i] != c
    ensures IndexOf(a + [c] + b, c) == |a|
  {
    if a != [] {
      assert (a + [c] + b)[1..] == a[1..] + [c] + b;
      IndexOfFirst(a[1..], c, b);
    }
  }

  predicate NoNewline(s: string)
  {
    forall i :: 0 <= i < |s| ==> s[i] != '\n'
  }

  /** A name a resource line can carry: no colon and no newline. */
  predicate PlainName(key: string)
  {
    NoNewline(key) && forall i :: 0 <= i < |key| ==> key[i] != ':'
  }

  lemma CursorKeysArePlain()
    ensures PlainName(ThemeKey) && PlainName(SizeKey) && PlainName(ThemeCoreKey)
    ensures NoNewline(ThemeCoreValue)
    ensures ThemeKey != SizeKey && ThemeKey != ThemeCoreKey && SizeKey != ThemeCoreKey
  {
    assert |ThemeKey| == 13 && |SizeKey| == 12 && |ThemeCoreKey| == 18;
  }

  lemma ParseResourceLine(key: string, value: string, rest: string)
    requires PlainName(key) && NoNewline(value)
    ensures ParseResources(ResourceLine(key, value) + rest) ==
              match ParseResources(rest)
              case None => None
              case Some(es) => Some([(key, value)] + es)
  {
    var line := key + ":" + value;
    var s := ResourceLine(key, value) + rest;
    assert s == line + ['\n'] + rest;
    IndexOfFirst(line, '\n', rest);
    assert s[..|line|] == line;
    assert s[|line| + 1..] == rest;
    assert line == key + [':'] + value;
    IndexOfFirst(key, ':', value);
    assert line[..|key|] == key;
    assert line[|key| + 1..] == value;
  }

  /** The first line with the name is in the front part when the front part has one. */
  lemma {:induction false} LookupAppend(a: seq<(string, string)>, b: seq<(string, string)>, key: string)
    ensures Lookup(a + b, key) == if Lookup(a, key).Some? then Lookup(a, key) else Lookup(b, key)
  {
    if a != [] {
      assert (a + b)[1..] == a[1..] + b;
      LookupAppend(a[1..], b, key);
    } else {
      assert a + b == b;
    }
  }

  /** The entries an optional line reads back as. */
  function OptionalEntry(key: string, value: Option<string>): seq<(string, string)>
  {
    if value.Some? then [(key, value.value)] else []
  }

  lemma ParseOptionalLine(key: string, value: Option<string>, rest: string, es: seq<(string, string)>)
    requires PlainName(key) && (value.Some? ==> NoNewline(value.value))
    requires ParseResources(rest) == Some(es)
    ensures ParseResources(OptionalLine(key, value) + rest) == Some(OptionalEntry(key, value) + es)
  {
    if value.Some? {
      ParseResourceLine(key, value.value, rest);
    } else {
      assert OptionalLine(key, value) + rest == rest;
      assert OptionalEntry(key, value) + es == es;
    }
  }

  /** A closed buffer reads back as its lines: each optional line exactly when its value is
      present, and the closing line exactly when one of them is. */
  lemma ClosedBufferRoundTrip(k1: string, v1: Option<string>, k2: string, v2: Option<string>, k3: string, v3: string)
    requires PlainName(k1) && PlainName(k2) && PlainName(k3)
    requires k1 != k2 && k1 != k3 && k2 != k3
    requires (v1.Some? ==> NoNewline(v1.value)) && (v2.Some? ==> NoNewline(v2.value)) && NoNewline(v3)
    ensures var e := ParseResources(ClosedBuffer(k1, v1, k2, v2, k3, v3));
      && e.Some?
      && Lookup(e.value, k1) == v1
      && Lookup(e.value, k2) == v2
      && Lookup(e.value, k3) == (if v1.Some? || v2.Some? then Some(v3) else None)
  {
    var closing := ResourceLine(k3, v3);
    ParseResourceLine(k3, v3, "");
    assert closing + "" == closing;
    assert ParseResources("") == Some([]);
    var tail := [(k3, v3)];
    assert [(k3, v3)] + [] == tail;
    ParseOptionalLine(k2, v2, closing, tail);
    ParseOptionalLine(k1, v1, OptionalLine(k2, v2) + closing, OptionalEntry(k2, v2) + tail);
    var lines := OptionalLine(k1, v1) + OptionalLine(k2, v2);
    if v1.Some? || v2.Some? {
      assert lines != "" by {
        if v1.Some? {
          assert |OptionalLine(k1, v1)| > 0;
        } else {
          assert |OptionalLine(k2, v2)| > 0;
        }
      }
      assert ClosedBuffer(k1, v1, k2, v2, k3, v3) == lines + closing;
      AppendAssoc(OptionalLine(k1, v1), OptionalLine(k2, v2), closing);
      var es := OptionalEntry(k1, v1) + (OptionalEntry(k2, v2) + tail);
      LookupAppend(OptionalEntry(k1, v1), OptionalEntry(k2, v2) + tail, k1);
      LookupAppend(OptionalEntry(k1, v1), OptionalEntry(k2, v2) + tail, k2);
      LookupAppend(OptionalEntry(k1, v1), OptionalEntry(k2, v2) + tail, k3);
      LookupAppend(OptionalEntry(k2, v2), tail, k1);
      LookupAppend(OptionalEntry(k2, v2), tail, k2);
      LookupAppend(OptionalEntry(k2, v2), tail, k3);
    }
  }

  /** The cursor buffer carries the settings faithfully: when the theme has no newline, it
      reads back as the theme exactly when one is set, the size exactly when it is positive,
      and the theme_core line exactly when either was written. */
  lemma CursorResourcesRoundTrip(theme: string, size: int)
    requires NoNewline(theme)
    ensures var e := ParseResources(CursorResources(theme, size));
      && e.Some?
      && Lookup(e.value, ThemeKey) == (if theme != "" then Some(theme) else None)
      && (size > 0 ==> Lookup(e.value, SizeKey).Some? && ParseDecimal(Lookup(e.value, SizeKey).value) == size)
      && (size <= 0 ==> Lookup(e.value, SizeKey) == None)
      && (Lookup(e.value, ThemeCoreKey) == Some(ThemeCoreValue) <==> theme != "" || size > 0)
      && (Lookup(e.value, ThemeCoreKey) == None <==> theme == "" && size <= 0)
  {
    CursorKeysArePlain();
    if size > 0 {
      DecimalRoundTrip(size);
    }
    ClosedBufferRoundTrip(ThemeKey, ThemeValue(theme), SizeKey, SizeValue(size), ThemeCoreKey, ThemeCoreValue);
  }

  // ---------------------------------------------------------------------------------------
  // The left-handed pointer map

  /** An unsigned char. */
  newtype byte = x: int | 0 <= x < 256

  /** The size of the buffer first given to XGetPointerMapping. */
  const DefaultMapSize := 128

  /** The value of the right button: 3, or 2 on a pointer with fewer than three buttons. */
  function RightButton(n: int): byte
  {
    if n < 3 then 2 else 3
  }

  /** The last index holding `v`, or `absent` when there is none. */
  function LastIndexOf(s: seq<byte>, v: byte, absent: int): (r: int)
    ensures v !in s ==> r == absent
    ensures v in s ==> 0 <= r < |s| && s[r] == v && v !in s[r + 1..]
  {
    if s == [] then absent
    else if s[|s| - 1] == v then |s| - 1
    else
      var r := LastIndexOf(s[..|s| - 1], v, absent);
      assert v in s ==> v in s[..|s| - 1] by {
        if v in s {
          var i :| 0 <= i < |s| && s[i] == v;
          assert s[..|s| - 1][i] == v;
        }
      }
      assert v in s ==> s[r + 1..] == s[..|s| - 1][r + 1..] + [s[|s| - 1]];
      r
  }

  /** The condition of the rewrite: the primary button comes before the right one on a
      left-handed pointer, or after it on a right-handed one. */
  predicate NeedsSwap(leftHanded: bool, idx1: int, idx3: int)
  {
    (leftHanded && idx1 < idx3) || (!leftHanded && idx1 > idx3)
  }

  /** setLeftHandedMouse on a buffer whose first n entries are the pointer map: the last
      positions of button 1 and of the right button are found, and when they are the wrong way
      round the first gets the right button and the second gets button 1. */
  function Remap(b: seq<byte>, n: nat, leftHanded: bool): seq<byte>
    requires n <= |b| && 2 <= |b|
  {
    var idx1 := LastIndexOf(b[..n], 1, 0);
    var idx3 := LastIndexOf(b[..n], RightButton(n), 1);
    if NeedsSwap(leftHanded, idx1, idx3) then b[idx1 := RightButton(n)][idx3 := 1] else b
  }

  /** setLeftHandedMouse: the pointer map as XGetPointerMapping left it in a buffer of
      max(128, n) bytes is scanned, and the two slots are patched in place when needed;
      `applied` tells whether XSetPointerMapping is called. */
  method SetLeftHandedMouse(buttons: array<byte>, n: nat, leftHanded: bool) returns (applied: bool)
    requires buttons.Length == (if n > DefaultMapSize then n else DefaultMapSize)
    modifies buttons
    ensures buttons[..] == Remap(old(buttons[..]), n, leftHanded)
    ensures applied <==> NeedsSwap(leftHanded, LastIndexOf(old(buttons[..n]), 1, 0),
                                   LastIndexOf(old(buttons[..n]), RightButton(n), 1))
  {
    ghost var b0 := buttons[..];
    var right := if n < 3 then 2 else 3;
    var idx1, idx3 := 0, 1;
    for i := 0 to n
      invariant idx1 == LastIndexOf(buttons[..i], 1, 0)
      invariant idx3 == LastIndexOf(buttons[..i], right, 1)
    {
      assert buttons[..i + 1][..i] == buttons[..i];
      if buttons[i] == 1 {
        idx1 := i;
      } else if buttons[i] == right {
        idx3 := i;
      }
    }
    assert buttons[..n] == b0[..n];
    applied := false;
    if (leftHanded && idx1 < idx3) || (!leftHanded && idx1 > idx3) {
      buttons[idx1] := right;
      buttons[idx3] := 1;
      applied := true;
      assert buttons[..] == b0[idx1 := right][idx3 := 1];
    }
  }

  lemma LastIndexOfIs(s: seq<byte>, v: byte, absent: int, k: int)
    requires 0 <= k < |s| && s[k] == v
    requires forall j :: k < j < |s| ==> s[j] != v
    ensures LastIndexOf(s, v, absent) == k
  {
  }

  lemma LastIndexOfBefore(s: seq<byte>, v: byte, absent: int, k: int)
    requires 0 <= k <= |s|
    requires forall j :: k <= j < |s| ==> s[j] != v
    ensures LastIndexOf(s, v, absent) < k || v !in s
  {
  }

  /** After the rewrite the pointer map no longer needs one: on any pointer with at least one
      button, the scan of the new map finds the two buttons the right way round. */
  lemma RemapSettles(b: seq<byte>, n: nat, leftHanded: bool)
    requires 1 <= n <= |b| && 2 <= |b|
    ensures var b' := Remap(b, n, leftHanded);
      !NeedsSwap(leftHanded, LastIndexOf(b'[..n], 1, 0), LastIndexOf(b'[..n], RightButton(n), 1))
  {
    var s, right := b[..n], RightButton(n);
    if NeedsSwap(leftHanded, LastIndexOf(s, 1, 0), LastIndexOf(s, right, 1)) {
      if leftHanded {
        RemapSettlesLeft(b, n);
      } else {
        RemapSettlesRight(b, n);
      }
    }
  }

  lemma RemapSettlesLeft(b: seq<byte>, n: nat)
    requires 1 <= n <= |b| && 2 <= |b|
    requires LastIndexOf(b[..n], 1, 0) < LastIndexOf(b[..n], RightButton(n), 1)
    ensures var s' := Remap(b, n, true)[..n];
      LastIndexOf(s', 1, 0) >= LastIndexOf(s', RightButton(n), 1)
  {
    var s, right := b[..n], RightButton(n);
    var idx1, idx3 := LastIndexOf(s, 1, 0), LastIndexOf(s, right, 1);
    var s' := Remap(b, n, true)[..n];
    if n == 1 {
      assert s' == [right];
      assert 1 !in s';
    } else {
      assert idx3 < n;
      assert s'[idx3] == 1;
      forall j | idx3 < j < n ensures s'[j] != 1 && s'[j] != right {
        assert s'[j] == s[j];
        assert s[idx1 + 1..][j - idx1 - 1] == s[j];
        assert s[idx3 + 1..][j - idx3 - 1] == s[j];
      }
      LastIndexOfIs(s', 1, 0, idx3);
      LastIndexOfBefore(s', right, 1, idx3);
    }
  }

  lemma RemapSettlesRight(b: seq<byte>, n: nat)
    requires 1 <= n <= |b| && 2 <= |b|
    requires LastIndexOf(b[..n], 1, 0) > LastIndexOf(b[..n], RightButton(n), 1)
    ensures var s' := Remap(b, n, false)[..n];
      LastIndexOf(s', 1, 0) <= LastIndexOf(s', RightButton(n), 1)
  {
    var s, right := b[..n], RightButton(n);
    var idx1, idx3 := LastIndexOf(s, 1, 0), LastIndexOf(s, right, 1);
    var s' := Remap(b, n, false)[..n];
    assert 1 in s;
    assert s'[idx1] == right && s'[idx3] == 1;
    forall j | idx1 < j < n ensures s'[j] != 1 && s'[j] != right {
      assert s'[j] == s[j];
      assert s[idx1 + 1..][j - idx1 - 1] == s[j];
      assert s[idx3 + 1..][j - idx3 - 1] == s[j];
    }
    LastIndexOfIs(s', right, 1, idx1);
    LastIndexOfBefore(s', 1, 0, idx1);
  }

  /** Setting the same handedness twice changes nothing the second time. */
  lemma RemapIdempotent(b: seq<byte>, n: nat, leftHanded: bool)
    requires n <= |b| && 2 <= |b|
    ensures Remap(Remap(b, n, leftHanded), n, leftHanded) == Remap(b, n, leftHanded)
  {
    var b' := Remap(b, n, leftHanded);
    if n == 0 {
      assert b'[..0] == b[..0];
    } else {
      RemapSettles(b, n, leftHanded);
    }
  }

  // ---------------------------------------------------------------------------------------
  // The configuration name

  /** The environment variable that tells the session's children which configuration is in
      use. */
  const ConfigEnv := "GRACEFUL_SESSION_CONFIG"

  /** setConfigName as written: an empty argument selects "session"; a non-empty one is not
      stored, so the previous name stays. */
  function ConfigNameAsWritten(current: string, arg: string): string
  {
    if arg == "" then "session" else current
  }

  /** setConfigName as intended: the argument, or "session" when it is empty. */
  function ConfigName(current: string, arg: string): string
  {
    if arg == "" then "session" else arg
  }

  /** With the code as written, a configuration given on the command line of a fresh session
      is dropped and the published name is empty. */
  lemma ConfigNameAsWrittenDropsArgument()
    ensures ConfigNameAsWritten("", "custom") == ""
    ensures forall current, arg :: arg != "" ==> ConfigNameAsWritten(current, arg) == current
  {
  }

  /** The intended rule: the name in use is never empty, is the argument whenever one is given,
      and does not depend on what was there before. */
  lemma ConfigNameIsUsable(current: string, arg: string)
    ensures ConfigName(current, arg) != ""
    ensures arg != "" ==> ConfigName(current, arg) == arg
    ensures forall other :: ConfigName(other, arg) == ConfigName(current, arg)
  {
  }

  /** The configuration-name part of SessionApplication. */
  class SessionApplication {
    /** configName: empty until set. */
    var configName: string
    /** The process environment. */
    var environment: map<string, string>

    constructor(environment: map<string, string>)
      ensures configName == "" && this.environment == environment
    {
      configName := "";
      this.environment := environment;
    }

    /** setConfigName as the source has it. */
    method SetConfigNameAsWritten(arg: string)
      modifies this
      ensures configName == ConfigNameAsWritten(old(configName), arg)
      ensures environment == old(environment)[ConfigEnv := configName]
    {
      if arg == "" {
        configName := "session";
      }
      environment := environment[ConfigEnv := configName];
    }

    /** setConfigName: stores the argument, "session" when it is empty, and publishes it in the
        environment. */
    method SetConfigName(arg: string)
      modifies this
      ensures configName == ConfigName(old(configName), arg) && configName != ""
      ensures environment == old(environment)[ConfigEnv := configName]
    {
      if arg == "" {
        configName := "session";
      } else {
        configName := arg;
      }
      environment := environment[ConfigEnv := configName];
    }
  }
}
