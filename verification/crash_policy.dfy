/** The crash-loop policy of the session's module supervisor (graceful-modman.cpp).

    Every supervised module instance keeps a window of the times (in seconds) at which it
    crashed, newest first.  On each crash the current time is put in front and entries are
    popped from the back while they are more than 60 seconds older than now.  If the window
    then holds MaxCrashes entries or more, autorestart of the module is disabled. */
module CrashPolicy {

  /** Crashes more than this many seconds before now no longer count. */
  const WindowSeconds := 60

  /** MAX_CRASHES_PER_APP: a window this long disables the module. */
  const MaxCrashes := 5

  /** A crash at time `e` still counts at time `now`. */
  predicate Fresh(e: int, now: int)
  {
    now - e <= WindowSeconds
  }

  /** The order the window is kept in: each entry is no later than the one before it. */
  ghost predicate NewestFirst(w: seq<int>)
  {
    forall i, j :: 0 <= i < j < |w| ==> w[j] <= w[i]
  }

  /** The order crashes happen in: each crash time is no earlier than the one before it. */
  ghost predicate Chronological(ts: seq<int>)
  {
    forall i, j :: 0 <= i < j < |ts| ==> ts[i] <= ts[j]
  }

  /** The `pop_back` loop: drop the last entry while it is stale.  What is left is a prefix of
      the window, everything dropped was stale, and the last entry kept is fresh. */
  function Prune(w: seq<int>, now: int): (r: seq<int>)
    ensures |r| <= |w| && r == w[..|r|]
    ensures forall i :: |r| <= i < |w| ==> !Fresh(w[i], now)
    ensures r != [] ==> Fresh(r[|r| - 1], now)
  {
    if |w| == 0 then []
    else if !Fresh(w[|w| - 1], now) then Prune(w[..|w| - 1], now)
    else w
  }

  /** One crash at time `now`: prepend `now`, then prune.  The new entry always survives, the
      window stays newest first, and every entry left in it is at most 60 seconds old. */
  function RecordCrash(w: seq<int>, now: int): (r: seq<int>)
    requires NewestFirst(w)
    requires forall i :: 0 <= i < |w| ==> w[i] <= now
    ensures 0 < |r| <= |w| + 1 && r[0] == now
    ensures r == ([now] + w)[..|r|]
    ensures NewestFirst(r)
    ensures forall i :: 0 <= i < |r| ==> Fresh(r[i], now)
  {
    var r := Prune([now] + w, now);
    assert Fresh(([now] + w)[0], now);
    r
  }

  /** A restart happens exactly when the pruned window is still shorter than MaxCrashes. */
  predicate Restarts(window: seq<int>)
  {
    |window| < MaxCrashes
  }

  /** The window after a whole chronological list of crashes of one instance. */
  function History(ts: seq<int>): seq<int>
  {
    if ts == [] then []
    else Prune([ts[|ts| - 1]] + History(ts[..|ts| - 1]), ts[|ts| - 1])
  }

  /** Reference definition: the crashes of `ts` that are fresh at `now`, newest first. */
  function Recent(ts: seq<int>, now: int): (r: seq<int>)
    ensures |r| <= |ts|
  {
    if ts == [] then []
    else Recent(ts[1..], now) + (if Fresh(ts[0], now) then [ts[0]] else [])
  }

  lemma {:induction false} RecentAppend(ts: seq<int>, x: int, now: int)
    ensures Recent(ts + [x], now) == (if Fresh(x, now) then [x] else []) + Recent(ts, now)
  {
    if ts == [] {
      assert [x][1..] == [];
    } else {
      assert (ts + [x])[1..] == ts[1..] + [x];
      RecentAppend(ts[1..], x, now);
    }
  }

  /** When every crash counts both at `a` and at `b`, the two views agree. */
  lemma {:induction false} RecentSameWhenAllFresh(ts: seq<int>, a: int, b: int)
    requires forall i :: 0 <= i < |ts| ==> Fresh(ts[i], a) && Fresh(ts[i], b)
    ensures Recent(ts, a) == Recent(ts, b)
  {
    if ts != [] {
      RecentSameWhenAllFresh(ts[1..], a, b);
    }
  }

  lemma PruneStaleLast(w: seq<int>, x: int, now: int)
    requires !Fresh(x, now)
    ensures Prune(w + [x], now) == Prune(w, now)
  {
    assert (w + [x])[..|w|] == w;
  }

  lemma PruneFreshLast(w: seq<int>, now: int)
    requires w != [] && Fresh(w[|w| - 1], now)
    ensures Prune(w, now) == w
  {
  }

  /** The window as it stood after the previous crash (at `l`), pruned after a new crash at
      `t`, equals the reference view at `t`. */
  lemma {:induction false} PruneRecent(ts: seq<int>, l: int, t: int)
    requires Chronological(ts)
    requires forall i :: 0 <= i < |ts| ==> ts[i] <= l
    requires l <= t
    ensures Prune([t] + Recent(ts, l), t) == [t] + Recent(ts, t)
  {
    if ts == [] {
      assert [t] + Recent(ts, l) == [t] == [t] + Recent(ts, t);
      PruneFreshLast([t], t);
    } else {
      var h, rest := ts[0], ts[1..];
      assert Recent(ts, l) == Recent(rest, l) + (if Fresh(h, l) then [h] else []);
      assert Recent(ts, t) == Recent(rest, t) + (if Fresh(h, t) then [h] else []);
      if !Fresh(h, t) {
        forall i, j | 0 <= i < j < |rest| ensures rest[i] <= rest[j] {
          assert ts[i + 1] <= ts[j + 1];
        }
        forall i | 0 <= i < |rest| ensures rest[i] <= l {
          assert ts[i + 1] <= l;
        }
        PruneRecent(rest, l, t);
        assert Recent(ts, t) == Recent(rest, t);
        if Fresh(h, l) {
          assert [t] + Recent(ts, l) == ([t] + Recent(rest, l)) + [h];
          PruneStaleLast([t] + Recent(rest, l), h, t);
        } else {
          assert Recent(ts, l) == Recent(rest, l);
        }
      } else {
        forall i | 0 <= i < |rest| ensures Fresh(rest[i], l) && Fresh(rest[i], t) {
          assert h <= ts[i + 1] <= l;
        }
        RecentSameWhenAllFresh(rest, l, t);
        var w := [t] + Recent(rest, l) + [h];
        assert [t] + Recent(ts, l) == w;
        PruneFreshLast(w, t);
      }
    }
  }

  /** The supervisor's window after a chronological series of crashes is exactly the reference
      view: the crashes within 60 seconds of the last one, newest first. */
  lemma {:induction false} HistoryIsRecent(ts: seq<int>)
    requires Chronological(ts) && ts != []
    ensures History(ts) == Recent(ts, ts[|ts| - 1])
  {
    var init, t := ts[..|ts| - 1], ts[|ts| - 1];
    assert ts == init + [t];
    assert History(ts) == Prune([t] + History(init), t);
    RecentAppend(init, t, t);
    assert Recent(ts, t) == [t] + Recent(init, t);
    if init == [] {
      assert [t] + History(init) == [t];
    } else {
      var l := init[|init| - 1];
      assert Chronological(init);
      HistoryIsRecent(init);
      forall i | 0 <= i < |init| ensures init[i] <= l {
        assert ts[i] <= ts[|init| - 1];
      }
      PruneRecent(init, l, t);
    }
  }

  lemma {:induction false} RecentAllFresh(ts: seq<int>, now: int)
    requires forall i :: 0 <= i < |ts| ==> Fresh(ts[i], now)
    ensures |Recent(ts, now)| == |ts|
  {
    if ts != [] {
      RecentAllFresh(ts[1..], now);
    }
  }

  /** In a chronological list, at least k crashes count at `now` iff the k-th newest does. */
  lemma {:induction false} RecentCount(ts: seq<int>, k: nat, now: int)
    requires Chronological(ts) && 0 < k <= |ts|
    ensures |Recent(ts, now)| >= k <==> Fresh(ts[|ts| - k], now)
  {
    if Fresh(ts[0], now) {
      forall i | 0 <= i < |ts| ensures Fresh(ts[i], now) {
        assert ts[0] <= ts[i] || i == 0;
      }
      RecentAllFresh(ts, now);
    } else if k == |ts| {
    } else {
      RecentCount(ts[1..], k, now);
      assert ts[1..][|ts| - 1 - k] == ts[|ts| - k];
    }
  }

  /** The crash-loop rule over a whole series: the module is disabled at its latest crash iff
      that crash and the MaxCrashes - 1 before it all lie within 60 seconds. */
  lemma {:induction false} CrashLoopDetected(ts: seq<int>)
    requires Chronological(ts) && ts != []
    ensures !Restarts(History(ts)) <==>
              |ts| >= MaxCrashes && ts[|ts| - 1] - ts[|ts| - MaxCrashes] <= WindowSeconds
  {
    HistoryIsRecent(ts);
    var last := ts[|ts| - 1];
    assert |History(ts)| == |Recent(ts, last)|;
    if |ts| >= MaxCrashes {
      RecentCount(ts, MaxCrashes, last);
    }
  }
}
