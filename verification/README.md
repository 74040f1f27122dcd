# graceful-session supervisor, modelled in Dafny

This project models the core of graceful-session, the process supervisor of a desktop login
session. It covers:

- **Module manager** (`GracefulModuleManager`). It starts the configuration updater, the
  window manager and the XDG autostart entries. It keeps "module" entries in a registry keyed
  by desktop-file basename, restarts crashed modules until one crashes five times within 60
  seconds, and tears the session down on logout: TERM to every module, kill for those still
  running after the grace period, reaper stop, then the window manager.
- **Readiness gate.** The native event filter latches "window manager started" and "tray
  started", and the startup waits stop on those latches or on a timeout.
- **Process reaper** (`ProcReaper`). `stop` sends TERM to the session's direct children
  except excluded pids, once. `run` drains exited children until stop is requested and
  nothing is left to reap.
- **Program locator.** `findProgram` searches the PATH; `getWindowManagerList` filters the
  known window managers.
- **Session application** (`SessionApplication`):
  - `setxkbmap`, which builds the argument vector of the setxkbmap process;
  - `loadMouseSettings`, with the Xcursor resource buffer it hands to xrdb;
  - `setLeftHandedMouse`, which rewrites the X pointer button map;
  - `setConfigName`.
- **Lock-screen manager.** It falls back from logind to ConsoleKit2, holds at most one sleep
  inhibitor descriptor, and releases it after the lock that happened before sleep.

Files:

- `wrappers.dfy`: the Option type.
- `crash_policy.dfy`: the crash window.
- `module_manager.dfy`: the module and manager classes, the gate and logout.
- `proc_reaper.dfy`
- `program_locator.dfy`
- `session_application.dfy`
- `lock_screen.dfy`
- `sequences.dfy`: a shared fact about sequence concatenation.

Objects that the source updates in place are classes, and their methods change fields:

- `Module` and `Manager`;
- `ProcReaper`;
- `SessionApplication`;
- `Provider` and `LockScreenManager`.

Effects become entries in a trace field of the object that performs them. These are process
launches, TERM, kill, warnings, exit, the reaper stop and screensaver calls. Each method is
specified by the new state it produces, in terms of pure functions: `StartActions`,
`RecordCrash`, `AfterWait`, `LogoutActions`, `Remap`, `XkbArgs`, `CursorResources`,
`InhibitStep` and `Step`. The lemmas state what the source promises about those functions.

Inputs replace everything outside the process:

- the clock, a parameter that never decreases;
- X events, as a scripted sequence of native events and a final timeout;
- D-Bus replies, as booleans, an introspection string and an optional descriptor;
- the process table and the `waitpid` results;
- the PATH and an `isExecutable` predicate;
- the autostart list, which window manager the dialog chooses, and which modules finish
  within the grace period.

## Behaviour worth noting

- `startAutostartApps` does not skip entries that are already registered.
  `startProcess(file)` overwrites the registry slot of the same basename.
- When no window manager is found, `startWm` does not end the session. It uses whatever the
  selection dialog returns.
- `startup` has no separate step for shell components. After the configuration updater and
  the window manager, only the autostart entries are started.
- The window manager runs in its own process object and is never entered in the module
  registry.

## Model

| member | source | states |
|---|---|---|
| CrashPolicy.Prune | app/session/graceful-modman.cpp:247-248 | The pop_back loop leaves a prefix of the window, drops only entries older than 60 s, and keeps a fresh last entry |
| CrashPolicy.RecordCrash | app/session/graceful-modman.cpp:245-248 | After a crash the window is non-empty and starts with now. It is now followed by a prefix of the old window, stays newest first, and holds only entries at most 60 s old |
| CrashPolicy.RecentAppend | app/session/graceful-modman.cpp:245-248 | The reference definition (the crashes still fresh at a time) grows by one more crash exactly when that crash is fresh |
| CrashPolicy.RecentSameWhenAllFresh | app/session/graceful-modman.cpp:245-248 | If every crash is fresh at both times, the reference window is the same at both times |
| CrashPolicy.PruneStaleLast | app/session/graceful-modman.cpp:247-248 | A stale last entry is popped and pruning continues on the rest |
| CrashPolicy.PruneFreshLast | app/session/graceful-modman.cpp:247-248 | Pruning stops at a fresh last entry |
| CrashPolicy.PruneRecent | app/session/graceful-modman.cpp:245-248 | Prepending a new crash to the window of the earlier crashes and pruning gives the reference window at the new time |
| CrashPolicy.HistoryIsRecent | app/session/graceful-modman.cpp:245-248 | With a nondecreasing clock, the window kept after any series of crashes equals the crashes of the last 60 s, newest first |
| CrashPolicy.RecentAllFresh | app/session/graceful-modman.cpp:245-248 | When every crash is fresh, none is dropped |
| CrashPolicy.RecentCount | app/session/graceful-modman.cpp:245-249 | At least k crashes are in the window exactly when the k-th most recent one is fresh |
| CrashPolicy.CrashLoopDetected | app/session/graceful-modman.cpp:245-256 | With the limit of 5 from line 27, autorestart is disabled exactly when there were at least 5 crashes and the last 5 lie within 60 s |
| ProgramLocator.Split | app/session/window-manager.cpp:19 | QString::split yields at least one part, and no part contains the separator |
| ProgramLocator.JoinSplit | app/session/window-manager.cpp:19 | Joining the parts of a split gives back the original string |
| ProgramLocator.SplitJoin | app/session/window-manager.cpp:19 | Splitting joined separator-free parts gives back the parts |
| ProgramLocator.SplitCount | app/session/window-manager.cpp:19 | There is one more part than separators |
| ProgramLocator.SplitNoSeparator | app/session/window-manager.cpp:19 | A string without separator splits into itself |
| ProgramLocator.SplitAfterSeparator | app/session/window-manager.cpp:19 | The text before the first separator is the first part, and the rest is split on |
| ProgramLocator.FindProgram | app/session/window-manager.cpp:12-28 | Found exactly when the program itself or some PATH directory plus the program is executable. A directly executable program is always found |
| ProgramLocator.ManagerList | app/session/window-manager.cpp:30-53 | Without the filter, every known manager is listed in order, each entry built from it: the command is the group name, the name the localized Name or else the command. With the filter, only available ones are listed. Each entry's flag is whether its command is found, and every qualifying manager is in the list |
| ProgramLocator.PickedInOrder | app/session/window-manager.cpp:39-50 | The positions of the kept managers lie in the known list and strictly increase, and every manager passing the filter is kept |
| ProgramLocator.ManagerListPicks | app/session/window-manager.cpp:39-50 | With or without the filter, the list is the known managers at the kept positions, in known order, each entry built from its manager (command the group name, name the localized Name or else the command) with its availability |
| ProgramLocator.GetWindowManagerList | app/session/window-manager.cpp:30-53 | The loop builds exactly the filtered list, and with onlyAvailable every entry is available |
| Reaper.ChildrenExact | app/session/proc-reaper.cpp:79-91 | A pid is collected exactly when some process-table entry has it and has this process as its parent |
| Reaper.TermTargetsFilter | app/session/proc-reaper.cpp:106-113 | A child is signalled exactly when it is not excluded |
| Reaper.TermTargetsExact | app/session/proc-reaper.cpp:79-113 | TERM goes exactly to the direct children that are not excluded |
| Reaper.DrainEnd | app/session/proc-reaper.cpp:63-67 | The first poll at which stop is requested and waitpid returned no child is where the loop breaks |
| Reaper.ProcReaper.constructor | app/session/proc-reaper.cpp:18-30 | A new reaper should run and has signalled nothing |
| Reaper.ProcReaper.Stop | app/session/proc-reaper.cpp:71-120 | The first stop signals exactly the non-excluded children, wakes the loop once and clears shouldRun. Later stops change nothing |
| Reaper.ProcReaper.Destroy | app/session/proc-reaper.cpp:32-35 | The destructor is stop with no exclusion |
| Reaper.ProcReaper.Run | app/session/proc-reaper.cpp:37-69 | The loop breaks exactly at the first poll with stop requested and no child reaped. It sleeps before the first pass and after each pass that reaped nothing, never right after a reap. Each pass is logged as waitpid reported it |
| ModuleSupervisor.BasenameIsLastComponent | app/session/graceful-modman.cpp:191 | QFileInfo::fileName (also line 396) is the suffix after the last '/' and contains no '/' |
| ModuleSupervisor.PartitionIsPermutation | app/session/graceful-modman.cpp:77-84 | Non-tray and tray entries together are exactly the autostart list |
| ModuleSupervisor.PartitionByFlag | app/session/graceful-modman.cpp:77-84 | The deferred entries are exactly those flagged X-Graceful-Need-Tray |
| ModuleSupervisor.PartitionRegistersAll | app/session/graceful-modman.cpp:77-100 | Starting non-tray then tray entries registers the same names as the whole list |
| ModuleSupervisor.PrependEnvSplit | app/session/graceful-modman.cpp:384-391 | Split at a one-character separator absent from the value, the new variable lists the value first and then every old entry unchanged and in order |
| ModuleSupervisor.GateExit | app/session/graceful-modman.cpp:342-368 | For the waits at lines 89-93 and 165-169, the wait ends at the first event that exits the loop: a latch being set, or the timeout |
| ModuleSupervisor.AfterWait | app/session/graceful-modman.cpp:342-368 | A wait never clears a latch and never reinstalls the filter. Once the filter is removed nothing changes, and latching the tray removes the filter |
| ModuleSupervisor.WmReportEndsWait | app/session/graceful-modman.cpp:347-354 | The first XCB event that shows a WM name ends the wait and latches mWmStarted |
| ModuleSupervisor.TimerLeavesGate | app/session/graceful-modman.cpp:168-169 | A timeout before any latching event leaves the gate as it was |
| ModuleSupervisor.ChooseWindowManager | app/session/graceful-modman.cpp:148-157 | The preset, or else the configured WM, is kept when non-empty and its first word is found. Otherwise the dialog's choice is used and saved |
| ModuleSupervisor.ShowWmSelectDialog | app/session/graceful-modman.cpp:326-335 | A single available manager is returned without a dialog. Otherwise the dialog's choice is returned |
| ModuleSupervisor.TerminateAllShape | app/session/graceful-modman.cpp:295-301 | The first pass sends TERM to every module, in iteration order |
| ModuleSupervisor.KillAllShape | app/session/graceful-modman.cpp:302-310 | The second pass kills only modules that are still running and did not finish within the grace period |
| ModuleSupervisor.KillAllExact | app/session/graceful-modman.cpp:302-310 | A module is killed exactly when it is registered and stubborn |
| ModuleSupervisor.LogoutTerminatesBeforeKilling | app/session/graceful-modman.cpp:292-310 | Logout starts with TERM to every module, and every kill comes after every TERM |
| ModuleSupervisor.LogoutKillsStubbornModules | app/session/graceful-modman.cpp:302-310 | Logout kills exactly the stubborn modules |
| ModuleSupervisor.LogoutStopsReaperOnce | app/session/graceful-modman.cpp:312-319 | After the module passes the reaper is stopped once, excluding the WM pid, and then the WM is terminated |
| ModuleSupervisor.LogoutExitsLast | app/session/graceful-modman.cpp:321-323 | Exit(0) is issued exactly when doExit holds, and only as the last action |
| ModuleSupervisor.Enumerate | app/session/graceful-modman.cpp:295-297 | Iteration visits every registered key exactly once |
| ModuleSupervisor.FindEntry | app/session/graceful-modman.cpp:200-206 | The first autostart entry whose basename is the name, or none |
| ModuleSupervisor.RecordCrashInPlace | app/session/graceful-modman.cpp:245-248 | Prepend and the pop_back loop compute RecordCrash |
| ModuleSupervisor.Module.constructor | app/session/graceful-modman.cpp:393-401 | A new module keeps its desktop file and basename, and is neither terminating nor running |
| ModuleSupervisor.Module.Start | app/session/graceful-modman.cpp:403-409 | Start clears the terminating flag and launches the first exec word with the rest as arguments |
| ModuleSupervisor.Module.Terminate | app/session/graceful-modman.cpp:411-420 | Terminate sets the terminating flag and nothing else |
| ModuleSupervisor.Module.UpdateState | app/session/graceful-modman.cpp:422-426 | moduleStateChanged is emitted for every state except Starting, with "running" exactly for Running |
| ModuleSupervisor.Manager.constructor | app/session/graceful-modman.cpp:31-43 | The registry and crash report are empty, no latch is set, the filter is installed and the reaper runs |
| ModuleSupervisor.Manager.SetWindowManager | app/session/graceful-modman.cpp:45-48 | Only the WM name changes |
| ModuleSupervisor.Manager.StartEntry | app/session/graceful-modman.cpp:176-195 | A non-module entry is started detached and not registered. A module with an empty Exec changes nothing. Any other module is launched under its basename with the first Exec word as program. A registering entry gets a fresh, Starting module under its basename, overwriting that slot. Other slots are unchanged |
| ModuleSupervisor.Manager.StartProcess | app/session/graceful-modman.cpp:197-208 | Does nothing for a registered name or a name with no autostart entry. Otherwise starts the first entry with that basename: its actions are traced, a registering entry gets a fresh, Starting module in that slot, and every other slot keeps its module |
| ModuleSupervisor.Manager.StopProcess | app/session/graceful-modman.cpp:210-214 | Does nothing for an unknown name. A registered module is sent TERM and marked terminating, and stays registered |
| ModuleSupervisor.Manager.ListModules | app/session/graceful-modman.cpp:216-219 | Returns each registered name exactly once |
| ModuleSupervisor.Manager.RestartModules | app/session/graceful-modman.cpp:229-262 | A null sender changes nothing. A terminating sender or a normal exit is unregistered with no crash accounting. On a crash the window is updated: below 5 entries the module restarts in place, otherwise a warning is issued and it is unregistered |
| ModuleSupervisor.Manager.HandleCrash | app/session/graceful-modman.cpp:243-256 | The crash branch: record the crash, then restart or warn and unregister |
| ModuleSupervisor.Manager.ResetCrashReport | app/session/graceful-modman.cpp:337-340 | The crash report is emptied and nothing else changes |
| ModuleSupervisor.Manager.NativeEventFilter | app/session/graceful-modman.cpp:342-368 | A non-XCB event changes nothing. An XCB event latches the WM or tray flag only while a wait loop exists, exits that loop, and removes the filter once the tray latches. It always returns false |
| ModuleSupervisor.Manager.Wait | app/session/graceful-modman.cpp:89-94 | For this wait and the one at lines 165-170, the gate after a wait is AfterWait. The events consumed run up to the first exit, and the wait timed out exactly when no latch ended it |
| ModuleSupervisor.Manager.StartWm | app/session/graceful-modman.cpp:139-174 | A running WM only latches mWmStarted. Otherwise the chosen WM is launched (and saved if it came from the dialog) and the wait runs |
| ModuleSupervisor.Manager.StartAutostartApps | app/session/graceful-modman.cpp:72-101 | Non-tray entries start in list order before all tray entries, which keep their order. A wait happens exactly when tray entries exist and no tray is available, and the gate changes only when tray entries exist. The registry gains exactly the basenames of the registering entries. Each of those slots holds a fresh, Starting, non-terminating module built from a registering entry with that basename. Every other slot keeps its module |
| ModuleSupervisor.Manager.StartNonTray | app/session/graceful-modman.cpp:77-84 | The loop starts the non-tray entries and collects the tray entries in order. The registry gains the basenames of the registering non-tray entries, each holding a fresh, Starting, non-terminating module built from one of the entries; other slots keep their modules |
| ModuleSupervisor.Manager.StartTrayApps | app/session/graceful-modman.cpp:86-100 | With no tray entries the gate is unchanged. Otherwise the tray latch takes the current availability, and a wait follows exactly when no tray is available. Then the entries start in order, with the same registry guarantee |
| ModuleSupervisor.Manager.StartEach | app/session/graceful-modman.cpp:96-99 | The entries are started in order. Each registering basename then holds a fresh, Starting, non-terminating module built from one of them, and every other slot keeps its module |
| ModuleSupervisor.Manager.Logout | app/session/graceful-modman.cpp:292-324 | Every module is marked terminating and traced as LogoutActions. The registry is unchanged. A running reaper signals the children except the WM and wakes once. A reaper already stopped keeps its signals and wakeups |
| ModuleSupervisor.Manager.SignalModules | app/session/graceful-modman.cpp:295-310 | The two passes: TERM to all, then kill the stubborn ones |
| ModuleSupervisor.Manager.TerminateModules | app/session/graceful-modman.cpp:295-301 | The first pass marks every module terminating and traces TERM for each |
| ModuleSupervisor.Manager.KillStubborn | app/session/graceful-modman.cpp:302-310 | The second pass traces a kill for each stubborn module |
| ModuleSupervisor.Manager.StopSession | app/session/graceful-modman.cpp:312-323 | Stops the reaper excluding the WM pid, terminates the WM, kills it if it lingers, and exits if asked. A second stop signals nothing and does not wake the reaper |
| ModuleSupervisor.Manager.Startup | app/session/graceful-modman.cpp:50-58 | Config updater, then WM, then autostart entries, in that order in the trace. The registry gains the updater under ":graceful-confupdate.desktop" (its in-memory name plus ".desktop") and the registering entries. Each new slot holds a fresh, Starting, non-terminating module built from the updater or an entry with that basename, and other slots keep their modules. The WM command is kept when a WM is present and is otherwise the ChooseWindowManager choice. The gate is the WM latch or wait, followed by the tray latch or wait |
| Session.Setxkbmap | app/session/session-application.cpp:106-130 | The vector is XkbArgs, and setxkbmap is started exactly when a model, a layout or an option is set |
| Session.ParsePair | app/session/session-application.cpp:106-126 | Reading a flag/value pair in front of a vector applies it to what the rest reads as |
| Session.ParseOptionArgs | app/session/session-application.cpp:121-126 | The option pairs read back as the option list |
| Session.ParseLayoutArgs | app/session/session-application.cpp:112-126 | The layout pairs and option pairs read back as the layout, the variant (only with a layout) and the options |
| Session.XkbArgsRoundTrip | app/session/session-application.cpp:106-126 | The vector reads back as the model, the layout, the options, and the variant exactly when a layout is set |
| Session.OptionArgsShape | app/session/session-application.cpp:121-126 | Each option gives a "-option" flag followed by the option, in order |
| Session.XkbArgsEndsWithOptions | app/session/session-application.cpp:106-126 | The vector has even length and ends with the option pairs in order |
| Session.XkbArgsModelFirst | app/session/session-application.cpp:108-111 | "-model m" comes first exactly when a model is set |
| Session.XkbArgsVariantAfterLayout | app/session/session-application.cpp:112-119 | "-variant v" appears only right after "-layout l", and only when both are set |
| Session.VariantPairAt | app/session/session-application.cpp:112-119 | The same, at one pair position |
| Session.DecimalRoundTrip | app/session/session-application.cpp:180 | QByteArray::number writes non-empty decimal digits that read back as the number |
| Session.LoadCursorSettings | app/session/session-application.cpp:171-187 | The buffer is CursorResources, and xrdb is run exactly when a theme is set or the size is positive |
| Session.IndexOf | app/session/session-application.cpp:171-187 | The first occurrence of a character, or the length |
| Session.ParseResourceLine | app/session/session-application.cpp:171-187 | A resource line with a plain name and a newline-free value reads back as its name and value |
| Session.ClosedBufferRoundTrip | app/session/session-application.cpp:171-187 | Two optional lines closed by a third read back as each optional value when present, and the closing line exactly when either is present |
| Session.CursorResourcesRoundTrip | app/session/session-application.cpp:171-187 | The buffer reads back as the theme exactly when set, the size exactly when positive, and theme_core=true exactly when either was written |
| Session.LastIndexOf | app/session/session-application.cpp:230-236 | The last index holding the value, or the initial value when it is absent |
| Session.SetLeftHandedMouse | app/session/session-application.cpp:203-246 | The array becomes Remap of the old map. XSetPointerMapping is called exactly when the primary and right buttons are in the wrong order |
| Session.RemapSettles | app/session/session-application.cpp:230-244 | After the rewrite, on a pointer with at least one button, the scan finds nothing left to swap |
| Session.RemapSettlesLeft | app/session/session-application.cpp:238-242 | The left-handed case of the same |
| Session.RemapSettlesRight | app/session/session-application.cpp:238-242 | The right-handed case of the same |
| Session.RemapIdempotent | app/session/session-application.cpp:230-244 | Applying the same handedness twice equals applying it once |
| Session.ConfigNameAsWrittenDropsArgument | app/session/session-application.cpp:48-55 | As written, a non-empty argument is never stored: a fresh session given "custom" publishes "" |
| Session.ConfigNameIsUsable | app/session/session-application.cpp:48-55 | The corrected rule gives a non-empty name: the argument when one is given, and independent of the previous name |
| Session.SessionApplication.constructor | app/session/session-application.cpp:48-55 | The name starts empty and the environment is the one given |
| Session.SessionApplication.SetConfigNameAsWritten | app/session/session-application.cpp:48-55 | As written: "session" for an empty argument, otherwise the old name, published in GRACEFUL_SESSION_CONFIG |
| Session.SessionApplication.SetConfigName | app/session/session-application.cpp:48-55 | Corrected: the argument, or "session", published in GRACEFUL_SESSION_CONFIG |
| LockScreen.InhibitStep | app/session/lock-screen-manager.cpp:124-143 | For logind, and ConsoleKit2 at lines 201-220: while a descriptor is held, inhibit returns false with no D-Bus call. Otherwise Inhibit is called, the reply's descriptor is kept, and the result is true exactly for a valid reply |
| LockScreen.InhibitAtMostOnce | app/session/lock-screen-manager.cpp:124-148 | Without a release, at most one inhibit succeeds (none if one was held), and a descriptor is held exactly when one was held or an inhibit succeeded |
| LockScreen.ReleaseClears | app/session/lock-screen-manager.cpp:145-148 | For logind, and ConsoleKit2 at lines 222-225: after a release nothing is held |
| LockScreen.Provider.constructor | app/session/lock-screen-manager.cpp:154-199 | For ConsoleKit2 (logind at lines 86-112): ConsoleKit2 is valid only with a valid interface whose introspection lists Inhibit. Logind needs only its interface. Signals are forwarded exactly when valid, and nothing is held |
| LockScreen.Provider.Inhibit | app/session/lock-screen-manager.cpp:124-143 | For logind, and ConsoleKit2 at lines 201-220: the result, the descriptor and the D-Bus call count follow InhibitStep |
| LockScreen.Provider.Release | app/session/lock-screen-manager.cpp:145-148 | For logind, and ConsoleKit2 at lines 222-225: the descriptor is dropped |
| LockScreen.Provider.Destroy | app/session/lock-screen-manager.cpp:114-117 | The logind destructor, and the ConsoleKit2 one at lines 191-194, release the descriptor |
| LockScreen.StepLatch | app/session/lock-screen-manager.cpp:46-70 | One event never increases the latch plus the scheduled releases by more than one sleep announcement |
| LockScreen.ReleasesFollowSleeps | app/session/lock-screen-manager.cpp:46-70 | Over any run, the releases scheduled never outnumber the announcements of imminent sleep, plus one for a latch already set |
| LockScreen.NoLockBeforeSleep | app/session/lock-screen-manager.cpp:61-74 | Without lockBeforeSleep the manager never calls Inhibit, never latches and never schedules a release |
| LockScreen.NoProviderNoEffect | app/session/lock-screen-manager.cpp:37-40 | A manager without a provider reacts to nothing |
| LockScreen.DoneResetsLatch | app/session/lock-screen-manager.cpp:46-54 | The done report clears the latch, and schedules a release exactly when it was set |
| LockScreen.LockScreenManager.constructor | app/session/lock-screen-manager.cpp:13-18 | No provider and no latch |
| LockScreen.LockScreenManager.Startup | app/session/lock-screen-manager.cpp:25-77 | Uses logind exactly when it is valid, ConsoleKit2 exactly when logind is invalid and ConsoleKit2 is valid, and returns false with no provider exactly when both are invalid. The done and lock handlers are connected. The sleep handler and the first inhibit happen only with lockBeforeSleep |
| LockScreen.LockScreenManager.Inhibit | app/session/lock-screen-manager.cpp:79-83 | The provider's inhibit, plus a warning when it returns false |
| LockScreen.LockScreenManager.OnLockRequested | app/session/lock-screen-manager.cpp:56-59 | A lock request locks the screen |
| LockScreen.LockScreenManager.OnAboutToSleep | app/session/lock-screen-manager.cpp:61-71 | Before sleep: latch and lock the screen. After sleep: inhibit again. Nothing happens without the handler |
| LockScreen.LockScreenManager.OnScreenSaverDone | app/session/lock-screen-manager.cpp:46-54 | Schedules a release only when latched, and clears the latch |
| LockScreen.LockScreenManager.OnReleaseTimer | app/session/lock-screen-manager.cpp:49-52 | A pending release timer releases the provider's descriptor |
| LockScreen.LockScreenManager.Destroy | app/session/lock-screen-manager.cpp:20-23 | Deleting the provider releases its descriptor |

## Left out

- Qt event loops, timers and signal/slot wiring. Waits are scripted event sequences ending in
  a timeout, and timer expiry is an explicit method call.
- The reaper's thread, mutex, wait condition, `QThread::wait(5000)`, and
  `prctl`/`procctl`.
- Reading `/proc` or `kinfo_getallproc`: the process table is an input. `waitpid` is a
  scripted list of results, and `kill` is an entry in the signalled list.
- QProcess internals. `waitForFinished(2000)` becomes the set of modules (and a flag for the
  window manager) that finish within the grace period. Exit notifications during logout are
  not fed back; they arrive later as separate `RestartModules` calls.
- ModuleSupervisor.Enumerate: the iteration order of the registry (a QMap, ordered by key) is
  not modelled. Keys are visited in an unspecified order, once each. `Manager.ListModules` and
  `Manager.Logout` inherit this unordered visit, so their results and traces are stated for
  an arbitrary order of the keys.
- The `wordexp` expansion of `graceful_setenv` and the process environment it writes. Only
  the concatenation in `graceful_setenv_prepend` is modelled (`PrependEnv`, `PrependEnvSplit`).
- Theme watching (`themeFolderChanged`, `themeChanged`), settings reads and writes, and
  `XdgAutoStart`. The autostart list and settings values are inputs.
- The window-manager selection dialog and the `QMessageBox` crash warning. The dialog's
  answer is an input, and the warning is a trace entry.
- The manager's destructor, which disconnects and deletes modules. It releases memory only.
- `deleteLater` and object deletion in general.
- The `malloc` and `realloc` failure returns of `setLeftHandedMouse`. The pointer map is an
  array of `max(128, n)` bytes, and `n` is the count of the last `XGetPointerMapping` call.
- The keyboard repeat, bell, numlock and pointer acceleration settings of
  `loadKeyboardSettings`/`loadMouseSettings`. These are X11 calls with no logic to state.
- The xrdb process that `mergeXrdb` runs on the buffer. The model returns the buffer and
  whether it would be merged.
- Local 8-bit encoding of the cursor theme: strings are sequences of characters.
- D-Bus interface construction, the session-id and current-session lookups, and the
  log messages.
- LockScreenManager.Startup: requires a manager that has not been started yet. The source
  calls startup once, right after construction. A second call would connect the handlers
  twice, which the model does not represent.
- ConfigNameAsWritten, ConfigName: the environment is a map standing in for `qputenv`.
  Local 8-bit encoding of the name is not modelled.
- The D-Bus facade, command-line parsing, num-lock handling and the selection dialog's
  widgets are not part of this model.

## Findings

| source | as written | input that shows it | evidently intended | confidence | as-written member | corrected member |
|---|---|---|---|---|---|---|
| app/session/session-application.cpp:48-55 | A non-empty argument is never stored in `configName`. Only the empty case assigns "session", and the unchanged old name is published in GRACEFUL_SESSION_CONFIG | A new session started with configuration "custom": the name stays "" and GRACEFUL_SESSION_CONFIG is set to "", so `startup` opens the settings under an empty name | Store the argument when it is non-empty and "session" otherwise, then publish it | high, not executed | Session.ConfigNameAsWrittenDropsArgument, Session.SessionApplication.SetConfigNameAsWritten | Session.ConfigNameIsUsable, Session.SessionApplication.SetConfigName |
