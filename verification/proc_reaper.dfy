/** The process reaper of the session (proc-reaper.cpp): a worker that collects exited
    children, and on stop sends SIGTERM to every child of the session process except the
    excluded ones.  The process table, the results of waitpid and the moment a stop request
    becomes visible to the worker are inputs; signals sent are recorded. */
module Reaper {

  /** One row of the process table: the process (thread-group) id and its parent's pid. */
  datatype ProcEntry = ProcEntry(pid: int, ppid: int)

  /** errno value for "no child processes" on Linux. */
  const ECHILD := 10

  /** How a reaped child ended: WIFEXITED, WIFSIGNALED, or neither. */
  datatype ChildStatus = Exited(code: int) | Signaled(signal: int) | Ended

  /** One pass of the drain loop as the worker sees it: what waitpid returned, errno when it
      returned a negative value, the child's status when it returned a pid, and whether a stop
      had been requested when the mutex-guarded check ran. */
  datatype Poll = Poll(pid: int, errno: int, status: ChildStatus, stopRequested: bool)

  /** The debug lines the drain loop writes. */
  datatype LogLine = WaitFailed(errno: int) | ChildExited(pid: int, code: int)
                   | ChildSignaled(pid: int, signal: int) | ChildEnded(pid: int)

  /** The pids whose parent is `me`, in table order (the vector `children`). */
  function Children(table: seq<ProcEntry>, me: int): (r: seq<int>)
    ensures |r| <= |table|
  {
    if table == [] then []
    else
      var init, p := table[..|table| - 1], table[|table| - 1];
      Children(init, me) + (if p.ppid == me then [p.pid] else [])
  }

  /** The children that are not excluded, in table order: the ones stop() signals. */
  function TermTargets(children: seq<int>, excluded: set<int>): (r: seq<int>)
    ensures |r| <= |children|
  {
    if children == [] then []
    else
      var init, c := children[..|children| - 1], children[|children| - 1];
      TermTargets(init, excluded) + (if c !in excluded then [c] else [])
  }

  lemma {:induction false} ChildrenExact(table: seq<ProcEntry>, me: int, x: int)
    ensures x in Children(table, me) <==>
              exists i :: 0 <= i < |table| && table[i].ppid == me && table[i].pid == x
  {
    if table != [] {
      var init, p := table[..|table| - 1], table[|table| - 1];
      ChildrenExact(init, me, x);
      if exists i :: 0 <= i < |table| && table[i].ppid == me && table[i].pid == x {
        var i :| 0 <= i < |table| && table[i].ppid == me && table[i].pid == x;
        if i < |init| {
          assert init[i] == table[i];
        }
      }
      if exists i :: 0 <= i < |init| && init[i].ppid == me && init[i].pid == x {
        var i :| 0 <= i < |init| && init[i].ppid == me && init[i].pid == x;
        assert table[i] == init[i];
      }
    }
  }

  lemma {:induction false} TermTargetsFilter(children: seq<int>, excluded: set<int>, x: int)
    ensures x in TermTargets(children, excluded) <==> x in children && x !in excluded
  {
    if children != [] {
      var init := children[..|children| - 1];
      TermTargetsFilter(init, excluded, x);
      assert children == init + [children[|children| - 1]];
    }
  }

  /** SIGTERM goes to exactly the processes whose parent is this process and whose pid is not
      excluded. */
  lemma TermTargetsExact(table: seq<ProcEntry>, me: int, excluded: set<int>, x: int)
    ensures x in TermTargets(Children(table, me), excluded) <==>
              x !in excluded && exists i :: 0 <= i < |table| && table[i].ppid == me && table[i].pid == x
  {
    TermTargetsFilter(Children(table, me), excluded, x);
    ChildrenExact(table, me, x);
  }

  /** Reference definition of the loop's exit: the first pass that saw a stop request after a
      waitpid that reaped nothing, or the end of the script. */
  function DrainEnd(script: seq<Poll>): (r: nat)
    ensures r <= |script|
    ensures forall i :: 0 <= i < r ==> !(script[i].stopRequested && script[i].pid <= 0)
    ensures r < |script| ==> script[r].stopRequested && script[r].pid <= 0
  {
    if script == [] then 0
    else if script[0].stopRequested && script[0].pid <= 0 then 0
    else 1 + DrainEnd(script[1..])
  }

  /** The line logged for one waitpid result: errors other than ECHILD, and every reaped
      child. */
  function PollLog(p: Poll): seq<LogLine>
  {
    if p.pid < 0 then (if p.errno != ECHILD then [WaitFailed(p.errno)] else [])
    else if p.pid > 0 then
      match p.status
      case Exited(code) => [ChildExited(p.pid, code)]
      case Signaled(s) => [ChildSignaled(p.pid, s)]
      case Ended => [ChildEnded(p.pid)]
    else []
  }

  function DrainLog(script: seq<Poll>): seq<LogLine>
  {
    if script == [] then [] else DrainLog(script[..|script| - 1]) + PollLog(script[|script| - 1])
  }

  class ProcReaper {
    /** mShouldRun: true until the first stop. */
    var shouldRun: bool
    /** The pids SIGTERM was sent to, in order. */
    var signalled: seq<int>
    /** How many times the worker's wait condition was woken. */
    var wakeups: nat

    /** The constructor claims the subreaper role (an OS call whose failure is only logged)
        and starts in the running state. */
    constructor()
      ensures shouldRun && signalled == [] && wakeups == 0
    {
      shouldRun := true;
      signalled := [];
      wakeups := 0;
    }

    /** stop(excludedPids): a no-op once stopped; otherwise TERM to every non-excluded child of
        `myPid` found in `table`, then wake the worker and clear the run flag. */
    method Stop(excluded: set<int>, table: seq<ProcEntry>, myPid: int)
      modifies this
      ensures !old(shouldRun) ==> shouldRun == old(shouldRun) && signalled == old(signalled) && wakeups == old(wakeups)
      ensures old(shouldRun) ==> signalled == old(signalled) + TermTargets(Children(table, myPid), excluded)
      ensures old(shouldRun) ==> wakeups == old(wakeups) + 1
      ensures !shouldRun
    {
      if !shouldRun {
        return;
      }
      var children: seq<int> := [];
      for i := 0 to |table|
        invariant children == Children(table[..i], myPid)
        invariant shouldRun && signalled == old(signalled) && wakeups == old(wakeups)
      {
        if table[i].ppid == myPid {
          children := children + [table[i].pid];
        }
        assert table[..i + 1][..i] == table[..i];
      }
      assert table[..|table|] == table;
      ghost var before := signalled;
      for i := 0 to |children|
        invariant signalled == before + TermTargets(children[..i], excluded)
        invariant shouldRun && wakeups == old(wakeups)
      {
        if children[i] !in excluded {
          signalled := signalled + [children[i]];
        }
        assert children[..i + 1][..i] == children[..i];
      }
      assert children[..|children|] == children;
      wakeups := wakeups + 1;
      shouldRun := false;
    }

    /** The destructor: stop with nothing excluded. */
    method Destroy(table: seq<ProcEntry>, myPid: int)
      modifies this
      ensures !old(shouldRun) ==> signalled == old(signalled)
      ensures old(shouldRun) ==> signalled == old(signalled) + TermTargets(Children(table, myPid), {})
      ensures !shouldRun
    {
      Stop({}, table, myPid);
    }

    /** run(): the drain loop over a script of waitpid results.  It waits on the condition only
        when the previous waitpid reaped nothing, and leaves only when a stop was requested and
        the last waitpid reaped nothing.  `slept[i]` tells whether pass i began with a wait. */
    method Run(script: seq<Poll>) returns (passes: nat, finished: bool, slept: seq<bool>, log: seq<LogLine>)
      ensures finished <==> DrainEnd(script) < |script|
      ensures passes == (if finished then DrainEnd(script) + 1 else |script|)
      ensures finished ==> script[passes - 1].stopRequested && script[passes - 1].pid <= 0
      ensures |slept| == passes
      ensures passes > 0 ==> slept[0]
      ensures forall i :: 0 < i < passes ==> (slept[i] <==> script[i - 1].pid <= 0)
      ensures forall i :: 0 <= i < passes && script[i].pid > 0 ==> i + 1 < passes || i + 1 == |script|
      ensures log == DrainLog(script[..passes])
    {
      var pid := 0;
      passes, finished, slept, log := 0, false, [], [];
      while passes < |script| && !finished
        invariant passes <= |script|
        invariant !finished ==> passes <= DrainEnd(script)
        invariant finished ==> passes == DrainEnd(script) + 1
        invariant |slept| == passes
        invariant passes > 0 ==> slept[0]
        invariant forall i :: 0 < i < passes ==> (slept[i] <==> script[i - 1].pid <= 0)
        invariant pid == (if passes == 0 then 0 else script[passes - 1].pid)
        invariant log == DrainLog(script[..passes])
        decreases |script| - passes
      {
        slept := slept + [pid <= 0];
        var p := script[passes];
        pid := p.pid;
        log := log + PollLog(p);
        assert script[..passes + 1][..passes] == script[..passes];
        passes := passes + 1;
        finished := p.stopRequested && pid <= 0;
      }
    }
  }
}
