/** Locating programs on the search path and listing the known window managers
    (window-manager.cpp). */
module ProgramLocator {
  import opened Wrappers

  /** What the host tells the locator: the PATH variable and which paths are executable
      files (QFileInfo::isExecutable). */
  datatype Host = Host(path: string, isExecutable: string -> bool)

  /** QString::split with a one-character separator: empty parts are kept. */
  function Split(s: string, sep: char): (parts: seq<string>)
    ensures |parts| >= 1
    ensures forall i :: 0 <= i < |parts| ==> sep !in parts[i]
  {
    if |s| == 0 then [""]
    else if s[0] == sep then [""] + Split(s[1..], sep)
    else
      var rest := Split(s[1..], sep);
      [[s[0]] + rest[0]] + rest[1..]
  }

  /** The inverse of Split: the parts glued together with the separator. */
  function Join(parts: seq<string>, sep: char): string
  {
    if |parts| == 0 then ""
    else if |parts| == 1 then parts[0]
    else parts[0] + [sep] + Join(parts[1..], sep)
  }

  /** Number of occurrences of `c` in `s`. */
  function Occurrences(s: string, c: char): nat
  {
    if |s| == 0 then 0 else (if s[0] == c then 1 else 0) + Occurrences(s[1..], c)
  }

  lemma SplitCons(c: char, s: string, sep: char)
    requires c != sep
    ensures Split([c] + s, sep) == [[c] + Split(s, sep)[0]] + Split(s, sep)[1..]
  {
    assert ([c] + s)[1..] == s;
  }

  lemma JoinCons(c: char, parts: seq<string>, sep: char)
    requires |parts| >= 1
    ensures Join([[c] + parts[0]] + parts[1..], sep) == [c] + Join(parts, sep)
  {
    var glued := [[c] + parts[0]] + parts[1..];
    if |parts| > 1 {
      assert glued[1..] == parts[1..];
      assert Join(glued, sep) == ([c] + parts[0]) + [sep] + Join(parts[1..], sep);
    }
  }

  /** Splitting loses nothing: joining the parts gives the input back. */
  lemma {:induction false} JoinSplit(s: string, sep: char)
    ensures Join(Split(s, sep), sep) == s
  {
    if |s| == 0 {
    } else if s[0] == sep {
      JoinSplit(s[1..], sep);
      var rest := Split(s[1..], sep);
      assert ([""] + rest)[1..] == rest;
      assert s == [sep] + s[1..];
    } else {
      JoinSplit(s[1..], sep);
      assert s == [s[0]] + s[1..];
      SplitCons(s[0], s[1..], sep);
      JoinCons(s[0], Split(s[1..], sep), sep);
    }
  }

  lemma {:induction false} SplitCount(s: string, sep: char)
    ensures |Split(s, sep)| == Occurrences(s, sep) + 1
  {
    if |s| > 0 {
      SplitCount(s[1..], sep);
    }
  }

  lemma {:induction false} SplitNoSeparator(s: string, sep: char)
    requires sep !in s
    ensures Split(s, sep) == [s]
  {
    if |s| > 0 {
      SplitNoSeparator(s[1..], sep);
      assert [s[0]] + s[1..] == s;
    }
  }

  lemma {:induction false} SplitAfterSeparator(a: string, sep: char, b: string)
    requires sep !in a
    ensures Split(a + [sep] + b, sep) == [a] + Split(b, sep)
  {
    if |a| == 0 {
      assert (a + [sep] + b)[1..] == b;
    } else {
      assert (a + [sep] + b)[1..] == a[1..] + [sep] + b;
      SplitAfterSeparator(a[1..], sep, b);
      assert [a[0]] + a[1..] == a;
    }
  }

  /** Joining parts free of the separator and splitting again gives the parts back. */
  lemma {:induction false} SplitJoin(parts: seq<string>, sep: char)
    requires |parts| >= 1
    requires forall i :: 0 <= i < |parts| ==> sep !in parts[i]
    ensures Split(Join(parts, sep), sep) == parts
  {
    if |parts| == 1 {
      SplitNoSeparator(parts[0], sep);
    } else {
      SplitJoin(parts[1..], sep);
      SplitAfterSeparator(parts[0], sep, Join(parts[1..], sep));
      assert [parts[0]] + parts[1..] == parts;
    }
  }

  /** The search directories: PATH split at ':'. */
  function SearchDirs(host: Host): seq<string>
  {
    Split(host.path, ':')
  }

  /** The file tried in directory `dir`: dir + QDir::separator() + program. */
  function Candidate(dir: string, program: string): string
  {
    dir + "/" + program
  }

  /** Reference definition of findProgram: the program itself is executable, or it is
      executable in some directory of PATH. */
  predicate ProgramExists(program: string, host: Host)
  {
    host.isExecutable(program) ||
    exists i :: 0 <= i < |SearchDirs(host)| && host.isExecutable(Candidate(SearchDirs(host)[i], program))
  }

  /** findProgram: checks the name itself first, then each PATH entry in order, and stops at
      the first executable candidate. */
  method FindProgram(program: string, host: Host) returns (found: bool)
    ensures host.isExecutable(program) ==> found
    ensures found <==> ProgramExists(program, host)
  {
    if host.isExecutable(program) {
      return true;
    }
    var paths := SearchDirs(host);
    for i := 0 to |paths|
      invariant forall j :: 0 <= j < i ==> !host.isExecutable(Candidate(paths[j], program))
    {
      if host.isExecutable(Candidate(paths[i], program)) {
        return true;
      }
    }
    return false;
  }

  /** One group of the KnownManagers settings section: its name and its localized Name and
      Comment keys when present. */
  datatype KnownManager = KnownManager(group: string, localizedName: Option<string>, localizedComment: Option<string>)

  /** One entry offered to the window-manager selection. */
  datatype WindowManager = WindowManager(name: string, command: string, comment: string, available: bool)

  /** The entry built for a known manager: the command is the group name, the name defaults
      to the command, the comment to the empty string. */
  function Describe(k: KnownManager, available: bool): WindowManager
  {
    WindowManager(
      match k.localizedName case Some(n) => n case None => k.group,
      k.group,
      match k.localizedComment case Some(c) => c case None => "",
      available)
  }

  /** Reference definition of getWindowManagerList: the known managers in order, keeping only
      the available ones when asked to. */
  function ManagerList(known: seq<KnownManager>, onlyAvailable: bool, host: Host): (ret: seq<WindowManager>)
    ensures |ret| <= |known|
    ensures !onlyAvailable ==> |ret| == |known|
    ensures !onlyAvailable ==> forall i :: 0 <= i < |ret| ==>
              ret[i] == Describe(known[i], ProgramExists(known[i].group, host))
    ensures onlyAvailable ==> forall i :: 0 <= i < |ret| ==> ret[i].available
    ensures forall i :: 0 <= i < |ret| ==> ret[i].available == ProgramExists(ret[i].command, host)
    ensures forall k :: k in known && (!onlyAvailable || ProgramExists(k.group, host)) ==>
              Describe(k, ProgramExists(k.group, host)) in ret
  {
    if |known| == 0 then []
    else
      var init, k := known[..|known| - 1], known[|known| - 1];
      assert known == init + [k];
      var available := ProgramExists(k.group, host);
      ManagerList(init, onlyAvailable, host) + (if !onlyAvailable || available then [Describe(k, available)] else [])
  }

  /** The positions in the known list of the managers that ManagerList keeps. */
  ghost function Picked(known: seq<KnownManager>, onlyAvailable: bool, host: Host): seq<int>
  {
    if |known| == 0 then []
    else
      var init, k := known[..|known| - 1], known[|known| - 1];
      Picked(init, onlyAvailable, host) + (if !onlyAvailable || ProgramExists(k.group, host) then [|known| - 1] else [])
  }

  /** The picked positions lie in the known list and strictly increase, so the kept managers
      stay in their known order; every manager passing the filter has its position picked. */
  lemma {:induction false} PickedInOrder(known: seq<KnownManager>, onlyAvailable: bool, host: Host)
    ensures forall i :: 0 <= i < |Picked(known, onlyAvailable, host)| ==>
              0 <= Picked(known, onlyAvailable, host)[i] < |known|
    ensures forall i, i' :: 0 <= i < i' < |Picked(known, onlyAvailable, host)| ==>
              Picked(known, onlyAvailable, host)[i] < Picked(known, onlyAvailable, host)[i']
    ensures forall j :: 0 <= j < |known| && (!onlyAvailable || ProgramExists(known[j].group, host)) ==>
              j in Picked(known, onlyAvailable, host)
    decreases |known|
  {
    if |known| != 0 {
      var n := |known|;
      var init := known[..n - 1];
      PickedInOrder(init, onlyAvailable, host);
      var p0, idx := Picked(init, onlyAvailable, host), Picked(known, onlyAvailable, host);
      assert forall i :: 0 <= i < |p0| ==> 0 <= p0[i] < |init|;
      assert forall i, i' :: 0 <= i < i' < |p0| ==> p0[i] < p0[i'];
      assert idx == p0 + (if !onlyAvailable || ProgramExists(known[n - 1].group, host) then [n - 1] else []);
      forall i | 0 <= i < |idx|
        ensures idx[i] == (if i < |p0| then p0[i] else n - 1)
      {
      }
      forall i, i' | 0 <= i < i' < |idx|
        ensures idx[i] < idx[i']
      {
      }
      forall j | 0 <= j < n - 1
        ensures known[j] == init[j]
      {
      }
    }
  }

  /** The list is the known managers at the picked positions: a subsequence of the known
      managers, in order, each with its availability, holding every manager that passes the
      filter. */
  lemma {:induction false} ManagerListPicks(known: seq<KnownManager>, onlyAvailable: bool, host: Host)
    ensures |Picked(known, onlyAvailable, host)| == |ManagerList(known, onlyAvailable, host)|
    ensures forall i :: 0 <= i < |Picked(known, onlyAvailable, host)| ==>
              var j := Picked(known, onlyAvailable, host)[i];
              0 <= j < |known| && ManagerList(known, onlyAvailable, host)[i] == Describe(known[j], ProgramExists(known[j].group, host))
    decreases |known|
  {
    if |known| != 0 {
      var n := |known|;
      var init, k := known[..n - 1], known[n - 1];
      ManagerListPicks(init, onlyAvailable, host);
      var r0, p0 := ManagerList(init, onlyAvailable, host), Picked(init, onlyAvailable, host);
      var keep := !onlyAvailable || ProgramExists(k.group, host);
      var ret, idx := ManagerList(known, onlyAvailable, host), Picked(known, onlyAvailable, host);
      assert ret == r0 + (if keep then [Describe(k, ProgramExists(k.group, host))] else []);
      assert idx == p0 + (if keep then [n - 1] else []);
      forall i | 0 <= i < |idx|
        ensures 0 <= idx[i] < n && ret[i] == Describe(known[idx[i]], ProgramExists(known[idx[i]].group, host))
      {
        if i < |p0| {
          assert idx[i] == p0[i] && ret[i] == r0[i];
          assert init[p0[i]] == known[p0[i]];
        } else {
          assert idx[i] == n - 1 && ret[i] == Describe(k, ProgramExists(k.group, host));
        }
      }
    }
  }

  /** getWindowManagerList: appends one entry per known manager that passes the filter. */
  method GetWindowManagerList(known: seq<KnownManager>, onlyAvailable: bool, host: Host)
    returns (ret: seq<WindowManager>)
    ensures ret == ManagerList(known, onlyAvailable, host)
    ensures onlyAvailable ==> forall i :: 0 <= i < |ret| ==> ret[i].available
  {
    ret := [];
    for i := 0 to |known|
      invariant ret == ManagerList(known[..i], onlyAvailable, host)
    {
      var available := FindProgram(known[i].group, host);
      if !onlyAvailable || available {
        ret := ret + [Describe(known[i], available)];
      }
      assert known[..i + 1][..i] == known[..i];
    }
    assert known[..|known|] == known;
  }
}
