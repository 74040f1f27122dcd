/** The session's module supervisor (graceful-modman.cpp): a registry of supervised modules
    keyed by desktop-file name, the crash/restart decision on module exit, the startup steps
    (window manager, autostart entries with the tray gate), the point operations of the
    session's D-Bus facade, logout, and the native event filter that releases the startup
    waits.

    Every OS, X11 and Qt effect is either an input (a parameter: the autostart list, what the
    X server reports, the scripted events delivered during a wait) or an output: an Action
    appended to the manager's `trace`. */
module ModuleSupervisor {
  import opened Wrappers
  import opened CrashPolicy
  import ProgramLocator
  import Reaper
  import opened Sequences

  // ---------------------------------------------------------------------------------------
  // Desktop entries and their registry keys

  /** An autostart desktop entry as the supervisor reads it: the path of its file, its Name,
      its Exec line as expandExecString() returns it, and the X-Graceful-Module and
      X-Graceful-Need-Tray flags. */
  datatype DesktopEntry = DesktopEntry(fileName: string, name: string, exec: seq<string>,
                                       isModule: bool, needsTray: bool)

  /** The entries a module is ever built from: their Exec expands to at least a program. */
  type ModuleEntry = e: DesktopEntry | |e.exec| > 0
    witness DesktopEntry("", "", [""], true, false)

  /** QFileInfo(path).fileName(): the part of the path after its last '/'. */
  function Basename(path: string): string
  {
    if |path| == 0 then ""
    else if path[|path| - 1] == '/' then ""
    else Basename(path[..|path| - 1]) + [path[|path| - 1]]
  }

  /** The file name is the longest suffix of the path without a '/'. */
  lemma {:induction false} BasenameIsLastComponent(path: string)
    ensures var b := Basename(path);
      && |b| <= |path| && b == path[|path| - |b|..]
      && '/' !in b
      && (|b| < |path| ==> path[|path| - |b| - 1] == '/')
  {
    if |path| > 0 && path[|path| - 1] != '/' {
      var init, c := path[..|path| - 1], path[|path| - 1];
      BasenameIsLastComponent(init);
      var b := Basename(init);
      assert Basename(path) == b + [c];
      assert path[|path| - |b| - 1..] == b + [c] by {
        assert path[|path| - |b| - 1..] == init[|init| - |b|..] + [c];
      }
      if |b| + 1 < |path| {
        assert path[|path| - |b| - 2] == init[|init| - |b| - 1];
      }
    }
  }

  /** The configuration updater of startConfUpdate: an application entry built in memory under
      the name ":graceful-confupdate", whose file name is that name plus ".desktop"; the leading
      ':' keeps its registry key apart from any autostart basename. Flagged as a module. */
  const ConfUpdateEntry: DesktopEntry :=
    DesktopEntry(":graceful-confupdate.desktop", "Graceful config updater", ["graceful-confupdate", "--watch"], true, false)

  /** An entry is registered iff it is a module whose Exec expands to something. */
  predicate Registers(e: DesktopEntry)
  {
    e.isModule && |e.exec| > 0
  }

  /** The registry key an entry adds, if any. */
  function NameOf(e: DesktopEntry): set<string>
  {
    if Registers(e) then {Basename(e.fileName)} else {}
  }

  // ---------------------------------------------------------------------------------------
  // Effects

  /** QProcess::ProcessState. */
  datatype ProcState = NotRunning | Starting | Running

  /** QProcess::ExitStatus. */
  datatype ExitStatus = NormalExit | CrashExit

  /** The moduleStateChanged signal: module name and whether it is now running. */
  datatype StateChange = StateChange(name: string, running: bool)

  /** The externally visible effects of the supervisor, in the order it causes them. */
  datatype Action =
    | Launch(name: string, program: string, args: seq<string>)   // QProcess::start of a module
    | StartDetached(file: string)                               // an unsupervised entry
    | Terminate(name: string)                                   // SIGTERM to a module
    | Kill(name: string)                                        // SIGKILL to a module
    | CrashWarning(entryName: string)                           // the "crashed too many times" box
    | SaveWindowManager(command: string)                        // window_manager written to settings
    | LaunchWindowManager(command: string)
    | StopReaper(excluded: set<int>)
    | TerminateWindowManager
    | KillWindowManager
    | Exit(code: int)                                           // QCoreApplication::exit

  /** What startProcess(file) does for one entry: an unsupervised entry is started detached,
      a module with an empty Exec is skipped, any other module is launched under its file
      name with the first word of its Exec as program and the rest as arguments. */
  function StartActions(e: DesktopEntry): seq<Action>
  {
    if !e.isModule then [StartDetached(e.fileName)]
    else if |e.exec| == 0 then []
    else [Launch(Basename(e.fileName), e.exec[0], e.exec[1..])]
  }

  /** The actions of starting the entries one after the other. */
  function ActionsFor(entries: seq<DesktopEntry>): seq<Action>
  {
    if entries == [] then []
    else ActionsFor(entries[..|entries| - 1]) + StartActions(entries[|entries| - 1])
  }

  /** The registry keys that starting the entries adds. */
  function RegisteredNames(entries: seq<DesktopEntry>): set<string>
  {
    if entries == [] then {}
    else RegisteredNames(entries[..|entries| - 1]) + NameOf(entries[|entries| - 1])
  }

  // ---------------------------------------------------------------------------------------
  // The autostart partition

  /** The entries started at once, in list order. */
  function NonTray(entries: seq<DesktopEntry>): seq<DesktopEntry>
  {
    if entries == [] then []
    else
      var e := entries[|entries| - 1];
      NonTray(entries[..|entries| - 1]) + (if !e.needsTray then [e] else [])
  }

  /** The entries deferred until the tray is available, in list order. */
  function Tray(entries: seq<DesktopEntry>): seq<DesktopEntry>
  {
    if entries == [] then []
    else
      var e := entries[|entries| - 1];
      Tray(entries[..|entries| - 1]) + (if e.needsTray then [e] else [])
  }

  lemma ActionsForSnoc(s: seq<DesktopEntry>, e: DesktopEntry)
    ensures ActionsFor(s + [e]) == ActionsFor(s) + StartActions(e)
  {
    assert (s + [e])[..|s|] == s;
  }

  lemma RegisteredNamesAppend(s: seq<DesktopEntry>, e: DesktopEntry)
    ensures RegisteredNames(s + [e]) == RegisteredNames(s) + NameOf(e)
  {
    assert (s + [e])[..|s|] == s;
  }

  /** One more entry in the first loop of startAutostartApps. */
  lemma PartitionStep(entries: seq<DesktopEntry>, i: nat)
    requires i < |entries|
    ensures entries[i].needsTray ==>
              NonTray(entries[..i + 1]) == NonTray(entries[..i]) && Tray(entries[..i + 1]) == Tray(entries[..i]) + [entries[i]]
    ensures !entries[i].needsTray ==>
              NonTray(entries[..i + 1]) == NonTray(entries[..i]) + [entries[i]] && Tray(entries[..i + 1]) == Tray(entries[..i])
  {
    assert entries[..i + 1][..i] == entries[..i];
    assert NonTray(entries[..i]) + [] == NonTray(entries[..i]) && Tray(entries[..i]) + [] == Tray(entries[..i]);
  }

  /** The autostart partition loses and invents nothing: every entry is started exactly once,
      either at once or after the tray gate. */
  lemma {:induction false} PartitionIsPermutation(entries: seq<DesktopEntry>)
    ensures multiset(NonTray(entries)) + multiset(Tray(entries)) == multiset(entries)
  {
    if entries != [] {
      var init, e := entries[..|entries| - 1], entries[|entries| - 1];
      PartitionIsPermutation(init);
      assert entries == init + [e];
    }
  }

  /** The partition is by the X-Graceful-Need-Tray flag: no deferred entry is started at once
      and every deferred entry needs the tray. */
  lemma {:induction false} PartitionByFlag(entries: seq<DesktopEntry>)
    ensures forall e :: e in NonTray(entries) ==> e in entries && !e.needsTray
    ensures forall e :: e in Tray(entries) ==> e in entries && e.needsTray
  {
    if entries != [] {
      var init, e := entries[..|entries| - 1], entries[|entries| - 1];
      PartitionByFlag(init);
      assert entries == init + [e];
    }
  }

  /** The two halves of the partition register exactly the names the whole list registers. */
  lemma {:induction false} PartitionRegistersAll(entries: seq<DesktopEntry>)
    ensures RegisteredNames(NonTray(entries)) + RegisteredNames(Tray(entries)) == RegisteredNames(entries)
  {
    if entries != [] {
      var init, e := entries[..|entries| - 1], entries[|entries| - 1];
      PartitionRegistersAll(init);
      if e.needsTray {
        assert NonTray(entries) == NonTray(init);
        RegisteredNamesAppend(Tray(init), e);
      } else {
        assert Tray(entries) == Tray(init);
        RegisteredNamesAppend(NonTray(init), e);
      }
    }
  }

  /** graceful_setenv_prepend: the new value is `value`, then the separator, then the old
      value of the variable (the wordexp expansion that follows is not modelled). */
  function PrependEnv(orig: string, value: string, separator: string := ":"): string
  {
    value + separator + orig
  }

  /** What the prepend is for: read as a list split at a one-character separator, the variable
      gains `value` as its first entry and keeps its old entries, in order, after it. */
  lemma PrependEnvSplit(orig: string, value: string, sep: char)
    requires sep !in value
    ensures ProgramLocator.Split(PrependEnv(orig, value, [sep]), sep) == [value] + ProgramLocator.Split(orig, sep)
  {
    ProgramLocator.SplitAfterSeparator(value, sep, orig);
  }

  // ---------------------------------------------------------------------------------------
  // The start-up gate

  /** A native event as the filter sees it: its type name, and what the X server reports at
      that moment (the _NET_SUPPORTING_WM_CHECK window manager name is set; a system tray is
      available). */
  datatype NativeEvent = NativeEvent(eventType: string, wmNamePresent: bool, trayAvailable: bool)

  /** What happens during a startup wait: a native event, or the wait's single-shot timer. */
  datatype GateEvent = Native(event: NativeEvent) | Timeout

  /** mWaitLoop: no wait in progress, or a wait that is armed; `exited` once exit() or the
      timer's quit() has been called on it. */
  datatype WaitLoop = NoLoop | Armed(exited: bool)

  /** The start-up gate of the manager: mWmStarted, mTrayStarted, mWaitLoop and whether the
      native event filter is still installed. */
  datatype Gate = Gate(wmStarted: bool, trayStarted: bool, waitLoop: WaitLoop, filterInstalled: bool)

  predicate IsXcb(ev: NativeEvent)
  {
    ev.eventType == "xcb_generic_event_t"
  }

  /** An event ends an armed wait: the timer fires, or the installed filter latches the window
      manager or the tray. */
  predicate EndsWait(ev: GateEvent, g: Gate)
  {
    ev.Timeout? ||
    (g.filterInstalled && IsXcb(ev.event) &&
     ((!g.wmStarted && ev.event.wmNamePresent) || (!g.trayStarted && ev.event.trayAvailable)))
  }

  /** The index of the event that ends a wait, or |events| when none does. */
  function GateExit(events: seq<GateEvent>, g: Gate): (r: nat)
    ensures r <= |events|
    ensures forall i :: 0 <= i < r ==> !EndsWait(events[i], g)
    ensures r < |events| ==> EndsWait(events[r], g)
  {
    if events == [] then 0
    else if EndsWait(events[0], g) then 0
    else 1 + GateExit(events[1..], g)
  }

  /** The gate after a wait over the events: unchanged when the timer ends it, otherwise as
      the filter sets it on the ending event. */
  function AfterWait(events: seq<GateEvent>, g: Gate): (r: Gate)
    ensures r.waitLoop == g.waitLoop
    ensures g.wmStarted ==> r.wmStarted
    ensures g.trayStarted ==> r.trayStarted
    ensures r.filterInstalled ==> g.filterInstalled
    ensures !g.filterInstalled ==> r == g
    ensures r.trayStarted && !g.trayStarted ==> !r.filterInstalled
  {
    var k := GateExit(events, g);
    if k == |events| || events[k].Timeout? then g
    else
      var ev := events[k].event;
      g.(wmStarted := g.wmStarted || ev.wmNamePresent,
         trayStarted := g.trayStarted || ev.trayAvailable,
         filterInstalled := g.trayStarted || !ev.trayAvailable)
  }

  /** A wait for the window manager ends at the first XCB event that reports its name, and
      leaves it latched as started. */
  lemma WmReportEndsWait(events: seq<GateEvent>, g: Gate, k: nat)
    requires !g.wmStarted && g.filterInstalled
    requires k < |events| && events[k].Native? && IsXcb(events[k].event) && events[k].event.wmNamePresent
    requires forall i :: 0 <= i < k ==> !EndsWait(events[i], g)
    ensures GateExit(events, g) == k
    ensures AfterWait(events, g).wmStarted
  {
    assert EndsWait(events[k], g);
  }

  /** A wait in which nothing is reported before the timer leaves the gate as it was. */
  lemma TimerLeavesGate(events: seq<GateEvent>, g: Gate, k: nat)
    requires k < |events| && events[k].Timeout?
    requires forall i :: 0 <= i < k ==> !EndsWait(events[i], g)
    ensures AfterWait(events, g) == g
  {
    assert EndsWait(events[k], g);
  }

  // ---------------------------------------------------------------------------------------
  // Choosing the window manager

  /** The command showWmSelectDialog returns: the only available window manager when there is
      exactly one, otherwise the dialog's choice. */
  function DialogResult(known: seq<ProgramLocator.KnownManager>, host: ProgramLocator.Host, choice: string): string
  {
    var available := ProgramLocator.ManagerList(known, true, host);
    if |available| == 1 then available[0].command else choice
  }

  /** The window manager startWm launches, and whether it had to ask (and save the answer):
      the preset command, else the configured one, unless that is empty or its first word is
      not found, in which case the dialog result. */
  function ChooseWindowManager(preset: string, configured: string, known: seq<ProgramLocator.KnownManager>,
                               host: ProgramLocator.Host, choice: string): (r: (string, bool))
    ensures !r.1 ==> r.0 != "" && r.0 == (if preset == "" then configured else preset)
    ensures !r.1 ==> ProgramLocator.ProgramExists(ProgramLocator.Split(r.0, ' ')[0], host)
    ensures r.1 ==> r.0 == DialogResult(known, host, choice)
    ensures r.1 <==> var wm := if preset == "" then configured else preset;
                     wm == "" || !ProgramLocator.ProgramExists(ProgramLocator.Split(wm, ' ')[0], host)
  {
    var wm := if preset == "" then configured else preset;
    if wm == "" || !ProgramLocator.ProgramExists(ProgramLocator.Split(wm, ' ')[0], host) then
      (DialogResult(known, host, choice), true)
    else (wm, false)
  }

  /** The actions of the window-manager step when no window manager is running yet. */
  function WmLaunchActions(choice: (string, bool)): seq<Action>
  {
    (if choice.1 then [SaveWindowManager(choice.0)] else []) + [LaunchWindowManager(choice.0)]
  }

  /** showWmSelectDialog: the only available window manager when there is exactly one,
      otherwise what the user picks in the dialog. */
  method ShowWmSelectDialog(known: seq<ProgramLocator.KnownManager>, host: ProgramLocator.Host, dialogChoice: string)
    returns (command: string)
    ensures command == DialogResult(known, host, dialogChoice)
    ensures |ProgramLocator.ManagerList(known, true, host)| == 1 ==> ProgramLocator.ProgramExists(command, host)
    ensures |ProgramLocator.ManagerList(known, true, host)| != 1 ==> command == dialogChoice
  {
    var available := ProgramLocator.GetWindowManagerList(known, true, host);
    if |available| == 1 {
      return available[0].command;
    }
    return dialogChoice;
  }

  // ---------------------------------------------------------------------------------------
  // Logout

  /** The actions of logout: TERM to every module, then a kill for every module still running
      after its grace period, then the rest (LogoutTail). */
  function LogoutActions(order: seq<string>, stubborn: set<string>, wmPid: int, wmKilled: bool, doExit: bool): seq<Action>
  {
    TerminateAll(order) + KillAll(order, stubborn) + LogoutTail(wmPid, wmKilled, doExit)
  }

  /** The part of logout after the modules: the reaper stop with only the window manager
      excluded, the window manager's TERM and possibly kill, then the exit when asked for. */
  function LogoutTail(wmPid: int, wmKilled: bool, doExit: bool): seq<Action>
  {
    [StopReaper({wmPid}), TerminateWindowManager]
      + (if wmKilled then [KillWindowManager] else []) + (if doExit then [Exit(0)] else [])
  }

  /** TERM to each module in the given order. */
  function TerminateAll(order: seq<string>): seq<Action>
  {
    if order == [] then [] else TerminateAll(order[..|order| - 1]) + [Terminate(order[|order| - 1])]
  }

  /** A kill for each module of the given order that is still running after its grace period. */
  function KillAll(order: seq<string>, stubborn: set<string>): seq<Action>
  {
    if order == [] then []
    else
      var k := order[|order| - 1];
      KillAll(order[..|order| - 1], stubborn) + (if k in stubborn then [Kill(k)] else [])
  }

  /** The i-th action of the first logout loop is TERM to the i-th module. */
  lemma {:induction false} TerminateAllShape(order: seq<string>)
    ensures |TerminateAll(order)| == |order|
    ensures forall i :: 0 <= i < |order| ==> TerminateAll(order)[i] == Terminate(order[i])
  {
    if order != [] {
      TerminateAllShape(order[..|order| - 1]);
    }
  }

  /** The second logout loop only kills, and only modules of the order that are stubborn. */
  lemma {:induction false} KillAllShape(order: seq<string>, stubborn: set<string>)
    ensures |KillAll(order, stubborn)| <= |order|
    ensures forall a :: a in KillAll(order, stubborn) ==> a.Kill? && a.name in stubborn && a.name in order
  {
    if order != [] {
      var init := order[..|order| - 1];
      KillAllShape(init, stubborn);
      assert forall k :: k in init ==> k in order;
    }
  }

  lemma KillAllStep(order: seq<string>, stubborn: set<string>, i: nat)
    requires i < |order|
    ensures order[i] in stubborn ==> KillAll(order[..i + 1], stubborn) == KillAll(order[..i], stubborn) + [Kill(order[i])]
    ensures order[i] !in stubborn ==> KillAll(order[..i + 1], stubborn) == KillAll(order[..i], stubborn)
  {
    assert order[..i + 1][..i] == order[..i];
    assert KillAll(order[..i], stubborn) + [] == KillAll(order[..i], stubborn);
  }

  lemma {:induction false} KillAllExact(order: seq<string>, stubborn: set<string>, k: string)
    ensures Kill(k) in KillAll(order, stubborn) <==> k in order && k in stubborn
  {
    if order != [] {
      var init := order[..|order| - 1];
      KillAllExact(init, stubborn, k);
      assert order == init + [order[|order| - 1]];
    }
  }

  /** In logout, every module is sent TERM before any module is killed. */
  lemma LogoutTerminatesBeforeKilling(order: seq<string>, stubborn: set<string>, wmPid: int, wmKilled: bool, doExit: bool)
    ensures var a := LogoutActions(order, stubborn, wmPid, wmKilled, doExit);
      && |order| <= |a|
      && (forall i :: 0 <= i < |order| ==> a[i] == Terminate(order[i]))
      && (forall i, j :: 0 <= i < |a| && 0 <= j < |a| && a[i].Kill? && a[j].Terminate? ==> j < i)
  {
    var a := LogoutActions(order, stubborn, wmPid, wmKilled, doExit);
    var t, ks, tail := TerminateAll(order), KillAll(order, stubborn), LogoutTail(wmPid, wmKilled, doExit);
    TerminateAllShape(order);
    KillAllShape(order, stubborn);
    assert a == t + ks + tail;
    forall i | 0 <= i < |a|
      ensures i < |t| ==> a[i] == t[i]
      ensures a[i].Kill? ==> |t| <= i
      ensures a[i].Terminate? ==> i < |t|
    {
      if i < |t| {
        assert a[i] == t[i];
      } else if i < |t| + |ks| {
        assert a[i] == ks[i - |t|] && ks[i - |t|] in ks;
      } else {
        assert a[i] == tail[i - |t| - |ks|];
      }
    }
  }

  /** In logout, a module is killed exactly when it is still running after its grace period. */
  lemma LogoutKillsStubbornModules(order: seq<string>, stubborn: set<string>, wmPid: int, wmKilled: bool, doExit: bool, k: string)
    ensures Kill(k) in LogoutActions(order, stubborn, wmPid, wmKilled, doExit) <==> k in order && k in stubborn
  {
    var a := LogoutActions(order, stubborn, wmPid, wmKilled, doExit);
    var t, ks, tail := TerminateAll(order), KillAll(order, stubborn), LogoutTail(wmPid, wmKilled, doExit);
    assert a == t + ks + tail;
    TerminateAllShape(order);
    KillAllExact(order, stubborn, k);
    assert Kill(k) !in t && Kill(k) !in tail;
    assert Kill(k) in a <==> Kill(k) in ks;
  }

  /** In logout, the reaper is stopped once, with exactly the window manager's pid excluded,
      after every module action and just before the window manager is terminated. */
  lemma LogoutStopsReaperOnce(order: seq<string>, stubborn: set<string>, wmPid: int, wmKilled: bool, doExit: bool)
    ensures var a := LogoutActions(order, stubborn, wmPid, wmKilled, doExit);
      var r := |order| + |KillAll(order, stubborn)|;
      && r + 1 < |a| && a[r] == StopReaper({wmPid}) && a[r + 1] == TerminateWindowManager
      && (forall i :: 0 <= i < r ==> a[i].Terminate? || a[i].Kill?)
      && (forall i :: 0 <= i < |a| && a[i].StopReaper? ==> i == r)
  {
    var t, ks := TerminateAll(order), KillAll(order, stubborn);
    TerminateAllShape(order);
    KillAllShape(order, stubborn);
    var mods, tail := t + ks, LogoutTail(wmPid, wmKilled, doExit);
    var a := LogoutActions(order, stubborn, wmPid, wmKilled, doExit);
    assert a == mods + tail;
    assert tail[0] == StopReaper({wmPid}) && tail[1] == TerminateWindowManager;
    assert forall j :: 1 <= j < |tail| ==> !tail[j].StopReaper?;
    forall i | 0 <= i < |mods|
      ensures mods[i].Terminate? || mods[i].Kill?
    {
      if i >= |t| {
        assert mods[i] == ks[i - |t|] && ks[i - |t|] in ks;
      }
    }
    forall i | 0 <= i < |a| && a[i].StopReaper?
      ensures i == |mods|
    {
      if i >= |mods| {
        assert a[i] == tail[i - |mods|];
      }
    }
  }

  /** Logout ends with the exit exactly when asked for, and exits nowhere else. */
  lemma LogoutExitsLast(order: seq<string>, stubborn: set<string>, wmPid: int, wmKilled: bool, doExit: bool)
    ensures var a := LogoutActions(order, stubborn, wmPid, wmKilled, doExit);
      && (doExit <==> a[|a| - 1] == Exit(0))
      && (forall i :: 0 <= i < |a| - 1 ==> !a[i].Exit?)
  {
    var t, ks := TerminateAll(order), KillAll(order, stubborn);
    var rest := [StopReaper({wmPid}), TerminateWindowManager] + (if wmKilled then [KillWindowManager] else []);
    var body := t + ks + rest;
    var a := body + (if doExit then [Exit(0)] else []);
    TerminateAllShape(order);
    KillAllShape(order, stubborn);
    assert a == LogoutActions(order, stubborn, wmPid, wmKilled, doExit);
    forall i | 0 <= i < |body|
      ensures !body[i].Exit?
    {
      if i < |t| {
        assert body[i] == t[i];
      } else if i < |t| + |ks| {
        assert body[i] == ks[i - |t|] && ks[i - |t|] in ks;
      } else {
        assert body[i] == rest[i - |t| - |ks|];
      }
    }
  }

  // ---------------------------------------------------------------------------------------
  // Helpers of the manager

  /** Picks the registry keys one at a time, in some order: each key exactly once. */
  method Enumerate(keys: set<string>) returns (order: seq<string>)
    ensures |order| == |keys|
    ensures forall i, j :: 0 <= i < j < |order| ==> order[i] != order[j]
    ensures forall k :: k in keys <==> k in order
  {
    order := [];
    var rest := keys;
    while rest != {}
      invariant rest <= keys
      invariant forall k :: k in keys <==> k in order || k in rest
      invariant forall k :: k in order ==> k !in rest
      invariant forall i, j :: 0 <= i < j < |order| ==> order[i] != order[j]
      invariant |order| + |rest| == |keys|
      decreases |rest|
    {
      var k :| k in rest;
      order := order + [k];
      rest := rest - {k};
    }
  }

  /** The first autostart entry whose file name is `name`. */
  function FindEntry(entries: seq<DesktopEntry>, name: string): (r: Option<nat>)
    ensures r.Some? ==> r.value < |entries| && Basename(entries[r.value].fileName) == name
    ensures r.Some? ==> forall j :: 0 <= j < r.value ==> Basename(entries[j].fileName) != name
    ensures r.None? ==> forall j :: 0 <= j < |entries| ==> Basename(entries[j].fileName) != name
  {
    if entries == [] then None
    else if Basename(entries[0].fileName) == name then Some(0)
    else match FindEntry(entries[1..], name)
      case None => None
      case Some(i) => Some(i + 1)
  }

  /** The crash accounting of restartModules: prepend the time of the crash, then pop the
      oldest entries while they are older than the window. */
  method RecordCrashInPlace(window: seq<int>, now: int) returns (w: seq<int>)
    requires NewestFirst(window) && forall i :: 0 <= i < |window| ==> window[i] <= now
    ensures w == RecordCrash(window, now)
    ensures forall i :: 0 <= i < |w| ==> w[i] <= now
  {
    w := [now] + window;
    ghost var recorded := RecordCrash(window, now);
    while !Fresh(w[|w| - 1], now)
      invariant 0 < |w| && w[0] == now
      invariant Prune(w, now) == recorded
      decreases |w|
    {
      w := w[..|w| - 1];
    }
    assert forall i :: 0 <= i < |w| ==> w[i] == ([now] + window)[i];
  }

  ghost predicate KeyedByFileName(nameMap: map<string, Module>)
  {
    forall k :: k in nameMap ==> nameMap[k].fileName == k
  }

  /** A registry slot filled by startProcess from one of the given entries: the module was
      built from a registering entry whose file name is the key. */
  ghost predicate StartedFrom(m: Module, k: string, entries: seq<DesktopEntry>)
  {
    m.file in entries && Registers(m.file) && Basename(m.file.fileName) == k
  }

  /** A module as start() leaves it: starting, and not being terminated. */
  ghost predicate JustStarted(m: Module)
    reads m
  {
    m.state == Starting && !m.isTerminating
  }

  /** The registry after startProcess on some entries, compared with the registry before
      them: the keys grow by exactly the given names, every other slot keeps its module, and
      every given name holds a module started from one of the entries. */
  ghost predicate StartedSlots(nameMap: map<string, Module>, origin: map<string, Module>,
                               names: set<string>, entries: seq<DesktopEntry>)
  {
    && nameMap.Keys == origin.Keys + names
    && (forall k :: k in origin && k !in names ==> nameMap[k] == origin[k])
    && (forall k :: k in names ==> StartedFrom(nameMap[k], k, entries))
  }

  /** Two rounds of startProcess make one: the later round overrides the earlier one's slots. */
  lemma StartedSlotsCompose(m0: map<string, Module>, m1: map<string, Module>, m2: map<string, Module>,
                            a: set<string>, b: set<string>,
                            w1: seq<DesktopEntry>, w2: seq<DesktopEntry>, w: seq<DesktopEntry>)
    requires StartedSlots(m1, m0, a, w1) && StartedSlots(m2, m1, b, w2)
    requires forall e :: e in w1 ==> e in w
    requires forall e :: e in w2 ==> e in w
    ensures StartedSlots(m2, m0, a + b, w)
  {
    forall k | k in a + b
      ensures StartedFrom(m2[k], k, w)
    {
      if k !in b {
        assert m2[k] == m1[k];
      }
    }
  }

  ghost predicate WindowsWellFormed(crashReport: map<Module, seq<int>>)
  {
    forall m :: m in crashReport ==> crashReport[m] != [] && NewestFirst(crashReport[m])
  }

  ghost predicate WindowsNotAfter(crashReport: map<Module, seq<int>>, t: int)
  {
    forall m, i :: m in crashReport && 0 <= i < |crashReport[m]| ==> crashReport[m][i] <= t
  }

  /** The registered modules still running after their grace period, given those that
      finished in it. */
  function Stubborn(nameMap: map<string, Module>, finishedInGrace: set<string>): set<string>
    reads nameMap.Values
  {
    set k | k in nameMap && nameMap[k].state != NotRunning && k !in finishedInGrace
  }

  // ---------------------------------------------------------------------------------------
  // Modules

  /** GracefulModule: one supervised process built from a module entry. */
  class Module {
    const file: ModuleEntry
    /** The file name of the entry, its registry key. */
    const fileName: string
    /** mIsTerminating: set by terminate(), cleared only by start(). */
    var isTerminating: bool
    var state: ProcState
    /** What the last QProcess::start was given. */
    var program: string
    var arguments: seq<string>

    constructor(file: ModuleEntry)
      ensures this.file == file && fileName == Basename(file.fileName)
      ensures !isTerminating && state == NotRunning
    {
      this.file := file;
      fileName := Basename(file.fileName);
      isTerminating := false;
      state := NotRunning;
      program := "";
      arguments := [];
    }

    /** start(): clears the terminating flag and launches the first word of the expanded Exec
        with the remaining words as arguments. */
    method Start()
      modifies this
      ensures !isTerminating && state == Starting
      ensures program == file.exec[0] && arguments == file.exec[1..]
    {
      isTerminating := false;
      program, arguments := file.exec[0], file.exec[1..];
      state := Starting;
    }

    /** terminate(): sets the terminating flag and asks the process to end; the state only
        changes when the process actually exits. */
    method Terminate()
      modifies this
      ensures isTerminating
      ensures state == old(state) && program == old(program) && arguments == old(arguments)
    {
      isTerminating := true;
    }

    /** A state change of the process, with the updateState slot's reaction: it is reported
        as moduleStateChanged unless the new state is Starting, with whether the module is now
        running. */
    method UpdateState(newState: ProcState) returns (emitted: Option<StateChange>)
      modifies this
      ensures state == newState
      ensures isTerminating == old(isTerminating) && program == old(program) && arguments == old(arguments)
      ensures emitted.None? <==> newState == Starting
      ensures emitted.Some? ==> emitted.value.name == fileName && (emitted.value.running <==> newState == Running)
    {
      state := newState;
      if newState != Starting {
        emitted := Some(StateChange(fileName, newState == Running));
      } else {
        emitted := None;
      }
    }
  }

  // ---------------------------------------------------------------------------------------
  // The manager

  /** GracefulModuleManager. */
  class Manager {
    /** mNameMap: registry from file name to module. */
    var nameMap: map<string, Module>
    /** mCrashReport: crash windows, keyed by module instance. */
    var crashReport: map<Module, seq<int>>
    var gate: Gate
    /** mWindowManager: the window manager command. */
    var windowManager: string
    /** The effects caused so far. */
    var trace: seq<Action>
    /** The latest time seen by the crash handler. */
    ghost var clock: int
    const reaper: Reaper.ProcReaper

    /** The manager's invariant: every module is registered under its own file name, and every
        crash window is non-empty, newest first and not later than the clock. */
    ghost predicate Valid()
      reads this
    {
      KeyedByFileName(nameMap) && WindowsWellFormed(crashReport) && WindowsNotAfter(crashReport, clock)
    }

    /** The crash window of a module instance (empty when it never crashed). */
    function WindowOf(m: Module): seq<int>
      reads this
    {
      if m in crashReport then crashReport[m] else []
    }

    /** The constructor installs the native event filter and starts the reaper. */
    constructor(ghost now: int)
      ensures Valid() && fresh(reaper) && reaper.shouldRun
      ensures nameMap == map[] && crashReport == map[] && trace == [] && clock == now
      ensures gate == Gate(false, false, NoLoop, true) && windowManager == ""
    {
      nameMap := map[];
      crashReport := map[];
      gate := Gate(false, false, NoLoop, true);
      windowManager := "";
      trace := [];
      clock := now;
      reaper := new Reaper.ProcReaper();
    }

    method SetWindowManager(wm: string)
      modifies this
      ensures windowManager == wm
      ensures nameMap == old(nameMap) && crashReport == old(crashReport) && trace == old(trace)
      ensures clock == old(clock) && gate == old(gate)
    {
      windowManager := wm;
    }

    /** startProcess(file): an unsupervised entry is started detached and not registered; a
        module whose Exec is empty is skipped; any other module is launched and registered
        under its file name, replacing whatever was registered there. */
    method StartEntry(e: DesktopEntry)
      requires KeyedByFileName(nameMap)
      modifies this
      ensures KeyedByFileName(nameMap)
      ensures trace == old(trace) + StartActions(e)
      ensures nameMap.Keys == old(nameMap.Keys) + NameOf(e)
      ensures Registers(e) ==> var m := nameMap[Basename(e.fileName)];
                fresh(m) && m.file == e && m.state == Starting && !m.isTerminating
      ensures forall k :: k in old(nameMap) && k !in NameOf(e) ==> nameMap[k] == old(nameMap[k])
      ensures StartedSlots(nameMap, old(nameMap), NameOf(e), [e])
      ensures forall k :: k in NameOf(e) ==> fresh(nameMap[k]) && JustStarted(nameMap[k])
      ensures crashReport == old(crashReport) && clock == old(clock)
      ensures windowManager == old(windowManager) && gate == old(gate)
    {
      if !e.isModule {
        trace := trace + [StartDetached(e.fileName)];
        return;
      }
      if |e.exec| == 0 {
        return;
      }
      var m := new Module(e);
      m.Start();
      nameMap := nameMap[m.fileName := m];
      trace := trace + [Launch(m.fileName, m.program, m.arguments)];
    }

    /** startProcess(name): nothing when the name is registered; otherwise the first autostart
        entry with that file name is started, and nothing happens when there is none. */
    method StartProcess(name: string, autostart: seq<DesktopEntry>)
      requires Valid()
      modifies this
      ensures Valid()
      ensures var i := FindEntry(autostart, name);
        if name in old(nameMap) || i.None? then
          nameMap == old(nameMap) && trace == old(trace)
        else
          && trace == old(trace) + StartActions(autostart[i.value])
          && nameMap.Keys == old(nameMap.Keys) + NameOf(autostart[i.value])
          && (forall k :: k in old(nameMap) && k !in NameOf(autostart[i.value]) ==> nameMap[k] == old(nameMap[k]))
          && (Registers(autostart[i.value]) ==> var m := nameMap[Basename(autostart[i.value].fileName)];
                fresh(m) && m.file == autostart[i.value] && m.state == Starting && !m.isTerminating)
      ensures crashReport == old(crashReport) && clock == old(clock)
      ensures windowManager == old(windowManager) && gate == old(gate)
    {
      if name !in nameMap {
        for i := 0 to |autostart|
          invariant forall j :: 0 <= j < i ==> Basename(autostart[j].fileName) != name
          invariant nameMap == old(nameMap) && trace == old(trace)
          invariant crashReport == old(crashReport) && clock == old(clock)
          invariant windowManager == old(windowManager) && gate == old(gate)
        {
          if Basename(autostart[i].fileName) == name {
            StartEntry(autostart[i]);
            return;
          }
        }
      }
    }

    /** stopProcess(name): only terminate() on a registered module; the registry entry stays
        until its exit is handled.  Unknown names are ignored. */
    method StopProcess(name: string)
      requires Valid()
      modifies this, if name in nameMap then {nameMap[name]} else {}
      ensures Valid()
      ensures nameMap == old(nameMap) && crashReport == old(crashReport) && clock == old(clock)
      ensures name in nameMap ==> nameMap[name].isTerminating && nameMap[name].state == old(nameMap[name].state)
      ensures trace == old(trace) + (if name in nameMap then [Terminate(name)] else [])
      ensures windowManager == old(windowManager) && gate == old(gate)
    {
      if name in nameMap {
        nameMap[name].Terminate();
        trace := trace + [Terminate(name)];
      }
    }

    /** listModules: every registered name, once each. */
    method ListModules() returns (names: seq<string>)
      ensures forall i, j :: 0 <= i < j < |names| ==> names[i] != names[j]
      ensures forall k :: k in nameMap <==> k in names
      ensures |names| == |nameMap|
    {
      names := Enumerate(nameMap.Keys);
    }

    /** restartModules: the handler of a module's exit.  A null sender changes nothing.  A
        module being terminated, or one that exited normally, is removed by its file name with
        no crash accounting.  A crash records `now` in the instance's window; the module is
        restarted in place while the window holds fewer than MaxCrashes crashes, and otherwise
        a warning is shown and it is removed. */
    method RestartModules(sender: Module?, status: ExitStatus, now: int)
      requires Valid() && clock <= now
      modifies this, sender
      ensures Valid() && clock == now
      ensures windowManager == old(windowManager) && gate == old(gate)
      ensures sender == null ==>
                nameMap == old(nameMap) && crashReport == old(crashReport) && trace == old(trace)
      ensures sender != null && (old(sender.isTerminating) || status == NormalExit) ==>
                && nameMap == old(nameMap) - {sender.fileName}
                && crashReport == old(crashReport) && trace == old(trace)
                && sender.state == old(sender.state) && sender.isTerminating == old(sender.isTerminating)
      ensures sender != null && !old(sender.isTerminating) && status == CrashExit ==>
                var w := RecordCrash(old(WindowOf(sender)), now);
                && crashReport == old(crashReport)[sender := w]
                && (Restarts(w) ==>
                      && nameMap == old(nameMap) && sender.state == Starting && !sender.isTerminating
                      && trace == old(trace) + [Launch(sender.fileName, sender.file.exec[0], sender.file.exec[1..])])
                && (!Restarts(w) ==>
                      && nameMap == old(nameMap) - {sender.fileName}
                      && trace == old(trace) + [CrashWarning(sender.file.name)])
    {
      clock := now;
      assert WindowsNotAfter(crashReport, now);
      if sender == null {
        return;
      }
      if !sender.isTerminating && status == CrashExit {
        HandleCrash(sender, now);
      } else {
        nameMap := nameMap - {sender.fileName};
      }
    }

    /** The crash branch of restartModules. */
    method HandleCrash(sender: Module, now: int)
      requires Valid() && clock == now && !sender.isTerminating
      modifies this, sender
      ensures Valid() && clock == now
      ensures windowManager == old(windowManager) && gate == old(gate)
      ensures var w := RecordCrash(old(WindowOf(sender)), now);
        && crashReport == old(crashReport)[sender := w]
        && (Restarts(w) ==>
              && nameMap == old(nameMap) && sender.state == Starting && !sender.isTerminating
              && trace == old(trace) + [Launch(sender.fileName, sender.file.exec[0], sender.file.exec[1..])])
        && (!Restarts(w) ==>
              && nameMap == old(nameMap) - {sender.fileName}
              && trace == old(trace) + [CrashWarning(sender.file.name)])
    {
      var w := RecordCrashInPlace(WindowOf(sender), now);
      crashReport := crashReport[sender := w];
      assert WindowsWellFormed(crashReport);
      assert WindowsNotAfter(crashReport, now);
      if |w| < MaxCrashes {
        sender.Start();
        trace := trace + [Launch(sender.fileName, sender.program, sender.arguments)];
      } else {
        trace := trace + [CrashWarning(sender.file.name)];
        nameMap := nameMap - {sender.fileName};
      }
    }

    /** resetCrashReport: forgets every crash window. */
    method ResetCrashReport()
      requires Valid()
      modifies this
      ensures Valid() && crashReport == map[]
      ensures nameMap == old(nameMap) && trace == old(trace) && clock == old(clock)
      ensures windowManager == old(windowManager) && gate == old(gate)
    {
      crashReport := map[];
    }

    /** nativeEventFilter: always returns false.  Events other than XCB ones change nothing.
        While a wait is armed, the window-manager latch and the tray latch go from false to
        true when the X server reports them, each exits the wait, and the tray latch also
        removes the filter. */
    method NativeEventFilter(ev: NativeEvent) returns (handled: bool)
      modifies this
      ensures !handled
      ensures nameMap == old(nameMap) && crashReport == old(crashReport) && trace == old(trace)
      ensures clock == old(clock) && windowManager == old(windowManager)
      ensures !IsXcb(ev) ==> gate == old(gate)
      ensures var g := old(gate);
              var wmLatch := IsXcb(ev) && !g.wmStarted && g.waitLoop.Armed? && ev.wmNamePresent;
              var trayLatch := IsXcb(ev) && !g.trayStarted && g.waitLoop.Armed? && ev.trayAvailable;
              gate == Gate(g.wmStarted || wmLatch, g.trayStarted || trayLatch,
                           if wmLatch || trayLatch then Armed(true) else g.waitLoop,
                           g.filterInstalled && !trayLatch)
    {
      if !IsXcb(ev) {
        return false;
      }
      if !gate.wmStarted && gate.waitLoop.Armed? {
        if ev.wmNamePresent {
          gate := gate.(wmStarted := true);
          if !gate.waitLoop.exited {
            gate := gate.(waitLoop := Armed(true));
          }
        }
      }
      if !gate.trayStarted && ev.trayAvailable && gate.waitLoop.Armed? {
        gate := gate.(trayStarted := true);
        if !gate.waitLoop.exited {
          gate := gate.(waitLoop := Armed(true));
        }
        gate := gate.(filterInstalled := false);
      }
      return false;
    }

    /** A startup wait (QEventLoop::exec with a single-shot quit timer): the events are
        delivered to the filter, while it is installed, until one ends the wait; running out
        of events counts as the timer firing. */
    method Wait(events: seq<GateEvent>) returns (consumed: nat, timedOut: bool)
      requires gate.waitLoop == NoLoop
      modifies this
      ensures gate == AfterWait(events, old(gate))
      ensures nameMap == old(nameMap) && crashReport == old(crashReport) && trace == old(trace)
      ensures clock == old(clock) && windowManager == old(windowManager)
      ensures var k := GateExit(events, old(gate));
        && consumed == (if k < |events| then k + 1 else |events|)
        && (timedOut <==> k == |events| || events[k].Timeout?)
    {
      ghost var g0 := gate;
      ghost var k := GateExit(events, g0);
      gate := gate.(waitLoop := Armed(false));
      consumed := 0;
      while consumed < |events| && !gate.waitLoop.exited
        invariant consumed <= |events| && gate.waitLoop.Armed?
        invariant !gate.waitLoop.exited ==> consumed <= k && gate == g0.(waitLoop := Armed(false))
        invariant gate.waitLoop.exited ==>
                    k < |events| && consumed == k + 1 && gate == AfterWait(events, g0).(waitLoop := Armed(true))
        invariant nameMap == old(nameMap) && crashReport == old(crashReport) && trace == old(trace)
        invariant clock == old(clock) && windowManager == old(windowManager)
        decreases |events| - consumed
      {
        var ev := events[consumed];
        consumed := consumed + 1;
        if ev.Timeout? {
          gate := gate.(waitLoop := Armed(true));
        } else if gate.filterInstalled {
          var _ := NativeEventFilter(ev.event);
        }
      }
      timedOut := !gate.waitLoop.exited || events[consumed - 1].Timeout?;
      gate := gate.(waitLoop := NoLoop);
    }

    /** startWm: when a window manager already announces its name, only latch it.  Otherwise
        choose the command (ChooseWindowManager; a dialog answer is saved to the settings),
        launch it and wait for it. */
    method StartWm(configured: string, known: seq<ProgramLocator.KnownManager>, host: ProgramLocator.Host,
                   dialogChoice: string, wmPresent: bool, events: seq<GateEvent>)
      requires gate.waitLoop == NoLoop
      modifies this
      ensures nameMap == old(nameMap) && crashReport == old(crashReport) && clock == old(clock)
      ensures wmPresent ==>
                gate == old(gate).(wmStarted := true) && trace == old(trace) && windowManager == old(windowManager)
      ensures !wmPresent ==>
                var choice := ChooseWindowManager(old(windowManager), configured, known, host, dialogChoice);
                && windowManager == choice.0
                && trace == old(trace) + WmLaunchActions(choice)
                && gate == AfterWait(events, old(gate))
    {
      if wmPresent {
        gate := gate.(wmStarted := true);
        return;
      }
      if windowManager == "" {
        windowManager := configured;
      }
      var found := false;
      if windowManager != "" {
        found := ProgramLocator.FindProgram(ProgramLocator.Split(windowManager, ' ')[0], host);
      }
      var launched := [];
      if windowManager == "" || !found {
        windowManager := ShowWmSelectDialog(known, host, dialogChoice);
        launched := [SaveWindowManager(windowManager)];
      }
      launched := launched + [LaunchWindowManager(windowManager)];
      trace := trace + launched;
      var _, _ := Wait(events);
    }

    /** startAutostartApps: entries that do not need the tray are started in list order; the
        others are collected and, when there are any, the tray latch is set from whether a tray
        is available now, a wait for the tray follows when it is not, and then they are
        started in list order. */
    method StartAutostartApps(entries: seq<DesktopEntry>, trayAvailableNow: bool, events: seq<GateEvent>)
      returns (waited: bool)
      requires Valid() && gate.waitLoop == NoLoop
      modifies this
      ensures Valid()
      ensures trace == old(trace) + ActionsFor(NonTray(entries)) + ActionsFor(Tray(entries))
      ensures StartedSlots(nameMap, old(nameMap), RegisteredNames(entries), entries)
      ensures forall k :: k in RegisteredNames(entries) ==> fresh(nameMap[k]) && JustStarted(nameMap[k])
      ensures crashReport == old(crashReport) && clock == old(clock) && windowManager == old(windowManager)
      ensures waited <==> Tray(entries) != [] && !trayAvailableNow
      ensures Tray(entries) == [] ==> gate == old(gate)
      ensures Tray(entries) != [] && trayAvailableNow ==> gate == old(gate).(trayStarted := true)
      ensures waited ==> gate == AfterWait(events, old(gate).(trayStarted := false))
    {
      var trayApps := StartNonTray(entries);
      ghost var afterNonTray := nameMap;
      waited := StartTrayApps(trayApps, trayAvailableNow, events);
      PartitionRegistersAll(entries);
      assert StartedSlots(nameMap, old(nameMap), RegisteredNames(entries), entries) by {
        PartitionByFlag(entries);
        StartedSlotsCompose(old(nameMap), afterNonTray, nameMap, RegisteredNames(NonTray(entries)),
                            RegisteredNames(Tray(entries)), entries, Tray(entries), entries);
      }
      forall k | k in RegisteredNames(entries)
        ensures fresh(nameMap[k]) && JustStarted(nameMap[k])
      {
        if k !in RegisteredNames(Tray(entries)) {
          assert nameMap[k] == afterNonTray[k];
        }
      }
    }

    /** The second half of startAutostartApps: when there are entries that need the tray, the
        tray latch is set from whether a tray is available now and a wait for the tray follows
        when it is not; then the entries are started in list order. */
    method StartTrayApps(trayApps: seq<DesktopEntry>, trayAvailableNow: bool, events: seq<GateEvent>)
      returns (waited: bool)
      requires KeyedByFileName(nameMap) && gate.waitLoop == NoLoop
      modifies this
      ensures KeyedByFileName(nameMap)
      ensures trace == old(trace) + ActionsFor(trayApps)
      ensures StartedSlots(nameMap, old(nameMap), RegisteredNames(trayApps), trayApps)
      ensures forall k :: k in RegisteredNames(trayApps) ==> fresh(nameMap[k]) && JustStarted(nameMap[k])
      ensures crashReport == old(crashReport) && clock == old(clock) && windowManager == old(windowManager)
      ensures waited <==> trayApps != [] && !trayAvailableNow
      ensures trayApps == [] ==> gate == old(gate)
      ensures trayApps != [] && trayAvailableNow ==> gate == old(gate).(trayStarted := true)
      ensures waited ==> gate == AfterWait(events, old(gate).(trayStarted := false))
    {
      waited := false;
      if trayApps != [] {
        gate := gate.(trayStarted := trayAvailableNow);
        if !gate.trayStarted {
          var _, _ := Wait(events);
          waited := true;
        }
      }
      StartEach(trayApps);
    }

    /** The first loop of startAutostartApps: the entries that do not need the tray are
        started, the others are returned in list order. */
    method StartNonTray(entries: seq<DesktopEntry>) returns (trayApps: seq<DesktopEntry>)
      requires KeyedByFileName(nameMap)
      modifies this
      ensures KeyedByFileName(nameMap) && gate == old(gate) && trayApps == Tray(entries)
      ensures trace == old(trace) + ActionsFor(NonTray(entries))
      ensures StartedSlots(nameMap, old(nameMap), RegisteredNames(NonTray(entries)), entries)
      ensures forall k :: k in RegisteredNames(NonTray(entries)) ==> fresh(nameMap[k]) && JustStarted(nameMap[k])
      ensures crashReport == old(crashReport) && clock == old(clock) && windowManager == old(windowManager)
    {
      trayApps := [];
      ghost var started := [];
      for i := 0 to |entries|
        invariant KeyedByFileName(nameMap) && gate == old(gate)
        invariant started == NonTray(entries[..i]) && trayApps == Tray(entries[..i])
        invariant trace == old(trace) + ActionsFor(started)
        invariant StartedSlots(nameMap, old(nameMap), RegisteredNames(started), entries)
        invariant forall k :: k in RegisteredNames(started) ==> JustStarted(nameMap[k])
        invariant forall k :: k in RegisteredNames(started) ==> fresh(nameMap[k])
        invariant crashReport == old(crashReport) && clock == old(clock) && windowManager == old(windowManager)
      {
        var e := entries[i];
        PartitionStep(entries, i);
        if e.needsTray {
          trayApps := trayApps + [e];
        } else {
          ghost var before := nameMap;
          StartNext(e, started, entries, old(nameMap), old(trace));
          forall k | k in RegisteredNames(started + [e])
            ensures fresh(nameMap[k])
          {
            if k !in NameOf(e) {
              assert k in before && nameMap[k] == before[k];
            }
          }
          started := started + [e];
        }
      }
      assert entries[..|entries|] == entries;
    }

    /** One turn of the start loops: startProcess on the next entry, accounted for against
        the trace and the registry the loop began with. */
    method StartNext(e: DesktopEntry, ghost done: seq<DesktopEntry>, ghost entries: seq<DesktopEntry>,
                     ghost origin: map<string, Module>, ghost trace0: seq<Action>)
      requires KeyedByFileName(nameMap) && e in entries
      requires trace == trace0 + ActionsFor(done)
      requires StartedSlots(nameMap, origin, RegisteredNames(done), entries)
      requires forall k :: k in RegisteredNames(done) ==> JustStarted(nameMap[k])
      modifies this
      ensures KeyedByFileName(nameMap)
      ensures trace == trace0 + ActionsFor(done + [e])
      ensures StartedSlots(nameMap, origin, RegisteredNames(done + [e]), entries)
      ensures forall k :: k in RegisteredNames(done + [e]) ==> JustStarted(nameMap[k])
      ensures RegisteredNames(done + [e]) == RegisteredNames(done) + NameOf(e)
      ensures forall k :: k in NameOf(e) ==> fresh(nameMap[k])
      ensures forall k :: k in old(nameMap) && k !in NameOf(e) ==> nameMap[k] == old(nameMap[k])
      ensures crashReport == old(crashReport) && clock == old(clock)
      ensures windowManager == old(windowManager) && gate == old(gate)
    {
      ghost var before := nameMap;
      StartEntry(e);
      ActionsForSnoc(done, e);
      AppendAssoc(trace0, ActionsFor(done), StartActions(e));
      RegisteredNamesAppend(done, e);
      StartedSlotsCompose(origin, before, nameMap, RegisteredNames(done), NameOf(e), entries, [e], entries);
    }

    /** startProcess on each entry, in order. */
    method StartEach(apps: seq<DesktopEntry>)
      requires KeyedByFileName(nameMap)
      modifies this
      ensures KeyedByFileName(nameMap) && gate == old(gate)
      ensures trace == old(trace) + ActionsFor(apps)
      ensures StartedSlots(nameMap, old(nameMap), RegisteredNames(apps), apps)
      ensures forall k :: k in RegisteredNames(apps) ==> fresh(nameMap[k]) && JustStarted(nameMap[k])
      ensures crashReport == old(crashReport) && clock == old(clock) && windowManager == old(windowManager)
    {
      for j := 0 to |apps|
        invariant KeyedByFileName(nameMap) && gate == old(gate)
        invariant trace == old(trace) + ActionsFor(apps[..j])
        invariant StartedSlots(nameMap, old(nameMap), RegisteredNames(apps[..j]), apps)
        invariant forall k :: k in RegisteredNames(apps[..j]) ==> JustStarted(nameMap[k])
        invariant forall k :: k in RegisteredNames(apps[..j]) ==> fresh(nameMap[k])
        invariant crashReport == old(crashReport) && clock == old(clock) && windowManager == old(windowManager)
      {
        assert apps[..j] + [apps[j]] == apps[..j + 1];
        ghost var before := nameMap;
        StartNext(apps[j], apps[..j], apps, old(nameMap), old(trace));
        forall k | k in RegisteredNames(apps[..j + 1])
          ensures fresh(nameMap[k])
        {
          if k !in NameOf(apps[j]) {
            assert k in before && nameMap[k] == before[k];
          }
        }
      }
      assert apps[..|apps|] == apps;
    }

    /** logout: TERM to every module, then a kill for each one still running after its grace
        period, then the reaper is stopped sparing only the window manager's pid, the window
        manager is terminated and killed if it outlives its grace period, and the application
        exits when asked to.  The modules stay registered: their exits arrive later through
        restartModules, where the terminating flag makes them be removed. */
    method Logout(doExit: bool, wmPid: int, finishedInGrace: set<string>, table: seq<Reaper.ProcEntry>,
                  myPid: int, wmRunning: bool, wmFinishesInGrace: bool) returns (order: seq<string>)
      requires Valid()
      modifies this, nameMap.Values, reaper
      ensures Valid() && nameMap == old(nameMap) && crashReport == old(crashReport) && clock == old(clock)
      ensures windowManager == old(windowManager) && gate == old(gate)
      ensures forall i, j :: 0 <= i < j < |order| ==> order[i] != order[j]
      ensures forall k :: k in nameMap <==> k in order
      ensures forall k :: k in nameMap ==> nameMap[k].isTerminating && nameMap[k].state == old(nameMap[k].state)
      ensures trace == old(trace) + LogoutActions(order, old(Stubborn(nameMap, finishedInGrace)), wmPid,
                                                   wmRunning && !wmFinishesInGrace, doExit)
      ensures old(reaper.shouldRun) ==>
                reaper.signalled == old(reaper.signalled) + Reaper.TermTargets(Reaper.Children(table, myPid), {wmPid})
                && reaper.wakeups == old(reaper.wakeups) + 1
      ensures !old(reaper.shouldRun) ==> reaper.signalled == old(reaper.signalled) && reaper.wakeups == old(reaper.wakeups)
      ensures !reaper.shouldRun
    {
      order := Enumerate(nameMap.Keys);
      ghost var before := trace;
      ghost var modules := TerminateAll(order) + KillAll(order, Stubborn(nameMap, finishedInGrace));
      SignalModules(order, finishedInGrace);
      StopSession(wmPid, table, myPid, wmRunning && !wmFinishesInGrace, doExit);
      AppendAssoc(before, modules, LogoutTail(wmPid, wmRunning && !wmFinishesInGrace, doExit));
    }

    /** The end of logout: the reaper is stopped sparing only the window manager's pid, the
        window manager is terminated and, when it outlives its grace period, killed, and the
        application exits when asked to. */
    method StopSession(wmPid: int, table: seq<Reaper.ProcEntry>, myPid: int, wmKilled: bool, doExit: bool)
      modifies this, reaper
      ensures nameMap == old(nameMap) && crashReport == old(crashReport) && clock == old(clock)
      ensures windowManager == old(windowManager) && gate == old(gate)
      ensures trace == old(trace) + LogoutTail(wmPid, wmKilled, doExit)
      ensures old(reaper.shouldRun) ==>
                reaper.signalled == old(reaper.signalled) + Reaper.TermTargets(Reaper.Children(table, myPid), {wmPid})
                && reaper.wakeups == old(reaper.wakeups) + 1
      ensures !old(reaper.shouldRun) ==> reaper.signalled == old(reaper.signalled) && reaper.wakeups == old(reaper.wakeups)
      ensures !reaper.shouldRun
    {
      reaper.Stop({wmPid}, table, myPid);
      var tail := [StopReaper({wmPid}), TerminateWindowManager];
      if wmKilled {
        tail := tail + [KillWindowManager];
      }
      if doExit {
        tail := tail + [Exit(0)];
      }
      trace := trace + tail;
    }

    /** The module part of logout: TERM to every module in the given order, then a kill for
        each one still running after its grace period. */
    method SignalModules(order: seq<string>, finishedInGrace: set<string>)
      requires forall k :: k in order ==> k in nameMap
      modifies this, nameMap.Values
      ensures nameMap == old(nameMap) && crashReport == old(crashReport) && clock == old(clock)
      ensures windowManager == old(windowManager) && gate == old(gate)
      ensures forall k :: k in order ==> nameMap[k].isTerminating
      ensures forall k :: k in nameMap ==> nameMap[k].state == old(nameMap[k].state)
      ensures trace == old(trace) + (TerminateAll(order) + KillAll(order, old(Stubborn(nameMap, finishedInGrace))))
    {
      ghost var stubborn := Stubborn(nameMap, finishedInGrace);
      TerminateModules(order);
      assert Stubborn(nameMap, finishedInGrace) == stubborn;
      KillStubborn(order, finishedInGrace);
      AppendAssoc(old(trace), TerminateAll(order), KillAll(order, stubborn));
    }

    /** The first loop of logout: terminate() on every registered module, in the given order. */
    method TerminateModules(order: seq<string>)
      requires forall k :: k in order ==> k in nameMap
      modifies this, nameMap.Values
      ensures nameMap == old(nameMap) && crashReport == old(crashReport) && clock == old(clock)
      ensures windowManager == old(windowManager) && gate == old(gate)
      ensures trace == old(trace) + TerminateAll(order)
      ensures forall k :: k in order ==> nameMap[k].isTerminating
      ensures forall k :: k in nameMap ==> nameMap[k].state == old(nameMap[k].state)
    {
      for i := 0 to |order|
        invariant nameMap == old(nameMap) && crashReport == old(crashReport) && clock == old(clock)
        invariant windowManager == old(windowManager) && gate == old(gate)
        invariant trace == old(trace) + TerminateAll(order[..i])
        invariant forall j :: 0 <= j < i ==> nameMap[order[j]].isTerminating
        invariant forall k :: k in nameMap ==> nameMap[k].state == old(nameMap[k].state)
      {
        assert order[..i + 1][..i] == order[..i];
        AppendAssoc(old(trace), TerminateAll(order[..i]), [Terminate(order[i])]);
        nameMap[order[i]].Terminate();
        trace := trace + [Terminate(order[i])];
      }
      assert order[..|order|] == order;
    }

    /** The second loop of logout: kill() on every module still running after its grace
        period, in the given order. */
    method KillStubborn(order: seq<string>, finishedInGrace: set<string>)
      requires forall k :: k in order ==> k in nameMap
      modifies this
      ensures nameMap == old(nameMap) && crashReport == old(crashReport) && clock == old(clock)
      ensures windowManager == old(windowManager) && gate == old(gate)
      ensures trace == old(trace) + KillAll(order, Stubborn(nameMap, finishedInGrace))
    {
      for i := 0 to |order|
        invariant trace == old(trace) + KillAll(order[..i], Stubborn(nameMap, finishedInGrace))
        invariant nameMap == old(nameMap) && crashReport == old(crashReport) && clock == old(clock)
        invariant windowManager == old(windowManager) && gate == old(gate)
      {
        var k := order[i];
        KillAllStep(order, Stubborn(nameMap, finishedInGrace), i);
        if nameMap[k].state != NotRunning && k !in finishedInGrace {
          AppendAssoc(old(trace), KillAll(order[..i], Stubborn(nameMap, finishedInGrace)), [Kill(k)]);
          trace := trace + [Kill(k)];
        }
      }
      assert order[..|order|] == order;
    }

    /** startup: the configuration updater, then the window manager, then the autostart
        entries. */
    method Startup(configured: string, known: seq<ProgramLocator.KnownManager>, host: ProgramLocator.Host,
                   dialogChoice: string, wmPresent: bool, wmEvents: seq<GateEvent>,
                   autostart: seq<DesktopEntry>, trayAvailableNow: bool, trayEvents: seq<GateEvent>)
      requires Valid() && gate.waitLoop == NoLoop
      modifies this
      ensures Valid() && gate.waitLoop == NoLoop
      ensures var wmActions := if wmPresent then []
                else WmLaunchActions(ChooseWindowManager(old(windowManager), configured, known, host, dialogChoice));
              trace == old(trace) + StartActions(ConfUpdateEntry) + wmActions
                       + ActionsFor(NonTray(autostart)) + ActionsFor(Tray(autostart))
      ensures StartedSlots(nameMap, old(nameMap), NameOf(ConfUpdateEntry) + RegisteredNames(autostart),
                           [ConfUpdateEntry] + autostart)
      ensures forall k :: k in NameOf(ConfUpdateEntry) + RegisteredNames(autostart) ==> fresh(nameMap[k]) && JustStarted(nameMap[k])
      ensures windowManager == if wmPresent then old(windowManager)
                               else ChooseWindowManager(old(windowManager), configured, known, host, dialogChoice).0
      ensures var afterWm := if wmPresent then old(gate).(wmStarted := true) else AfterWait(wmEvents, old(gate));
              gate == if Tray(autostart) == [] then afterWm
                      else if trayAvailableNow then afterWm.(trayStarted := true)
                      else AfterWait(trayEvents, afterWm.(trayStarted := false))
      ensures crashReport == old(crashReport) && clock == old(clock)
    {
      StartEntry(ConfUpdateEntry);
      ghost var afterConf, afterConfMap := trace, nameMap;
      StartWm(configured, known, host, dialogChoice, wmPresent, wmEvents);
      assert wmPresent ==> trace == afterConf + [];
      var _ := StartAutostartApps(autostart, trayAvailableNow, trayEvents);
      ghost var everything := [ConfUpdateEntry] + autostart;
      assert forall e :: e in autostart ==> e in everything;
      StartedSlotsCompose(old(nameMap), afterConfMap, nameMap, NameOf(ConfUpdateEntry), RegisteredNames(autostart),
                          [ConfUpdateEntry], autostart, everything);
      forall k | k in NameOf(ConfUpdateEntry) + RegisteredNames(autostart)
        ensures fresh(nameMap[k]) && JustStarted(nameMap[k])
      {
        if k !in RegisteredNames(autostart) {
          assert nameMap[k] == afterConfMap[k];
        }
      }
    }
  }
}
