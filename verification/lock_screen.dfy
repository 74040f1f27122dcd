/** The lock-screen manager (lock-screen-manager.cpp): it picks a session provider (logind,
    then ConsoleKit2), takes a "delay" sleep inhibitor from it, locks the screen when the
    system is about to sleep, and releases the inhibitor a while after the screensaver reports
    that locking is done.

    D-Bus replies are inputs: whether an interface is valid, the introspection text of
    ConsoleKit2, and the reply to an Inhibit call (None for an error reply, Some(fd) for a
    descriptor). Signals and timers are method calls; the screensaver calls and warnings are
    recorded in a trace. */
module LockScreen {
  import opened Wrappers

  datatype ProviderKind = Logind | ConsoleKit2

  /** The method whose presence in the introspection data tells ConsoleKit2 from ConsoleKit. */
  const InhibitMethod := "Inhibit"

  /** Whether `t` occurs in `s`. */
  function Contains(s: string, t: string): bool
    decreases |s|
  {
    if |s| < |t| then false else s[..|t|] == t || Contains(s[1..], t)
  }

  /** isValid of a provider built on an interface with the given validity and introspection
      text: logind needs only its interface, ConsoleKit2 also needs Inhibit in the
      introspection data. */
  function ProviderValid(kind: ProviderKind, interfaceValid: bool, introspection: string): bool
  {
    match kind
    case Logind => interfaceValid
    case ConsoleKit2 => interfaceValid && Contains(introspection, InhibitMethod)
  }

  /** The provider fallback of startup: logind when it is valid, otherwise ConsoleKit2 when it
      is valid, otherwise none. */
  function ChooseProvider(logindValid: bool, consoleKitValid: bool): Option<ProviderKind>
  {
    if logindValid then Some(Logind) else if consoleKitValid then Some(ConsoleKit2) else None
  }

  // ---------------------------------------------------------------------------------------
  // The inhibitor of one provider

  /** What one inhibit call does: whether it returned true, the descriptor held afterwards,
      and whether the Inhibit D-Bus method was called. */
  datatype InhibitResult = InhibitResult(ok: bool, held: Option<int>, called: bool)

  /** inhibit of either provider: refused without a D-Bus call while a descriptor is held;
      otherwise Inhibit is called, and the descriptor of a valid reply is kept. */
  function InhibitStep(held: Option<int>, reply: Option<int>): (r: InhibitResult)
    ensures held.Some? ==> !r.ok && !r.called && r.held == held
    ensures held.None? ==> r.called && (r.ok <==> reply.Some?) && r.held == reply
    ensures r.ok <==> r.held.Some? && r.held != held
  {
    if held.Some? then InhibitResult(false, held, false)
    else if reply.None? then InhibitResult(false, None, true)
    else InhibitResult(true, reply, true)
  }

  /** One thing that can happen to a provider's inhibitor. */
  datatype ProviderOp = Inhibit(reply: Option<int>) | Release

  /** The descriptor held after a series of operations. */
  function HeldAfter(held: Option<int>, ops: seq<ProviderOp>): Option<int>
    decreases |ops|
  {
    if ops == [] then held
    else match ops[0]
      case Inhibit(reply) => HeldAfter(InhibitStep(held, reply).held, ops[1..])
      case Release => HeldAfter(None, ops[1..])
  }

  /** How many inhibit calls of a series returned true. */
  function Successes(held: Option<int>, ops: seq<ProviderOp>): nat
    decreases |ops|
  {
    if ops == [] then 0
    else match ops[0]
      case Inhibit(reply) =>
        (if InhibitStep(held, reply).ok then 1 else 0) + Successes(InhibitStep(held, reply).held, ops[1..])
      case Release => Successes(None, ops[1..])
  }

  /** Without a release in between, at most one inhibit succeeds, and none when a descriptor
      was already held; a descriptor is held at the end exactly when one was held at the start
      or an inhibit succeeded. */
  lemma {:induction false} InhibitAtMostOnce(held: Option<int>, ops: seq<ProviderOp>)
    requires Release !in ops
    ensures Successes(held, ops) <= (if held.None? then 1 else 0)
    ensures HeldAfter(held, ops).Some? <==> held.Some? || Successes(held, ops) == 1
    ensures held.Some? ==> HeldAfter(held, ops) == held
    decreases |ops|
  {
    if ops != [] {
      assert ops[0] in ops;
      assert Release !in ops[1..] by {
        forall k | 0 <= k < |ops[1..]| ensures ops[1..][k] != Release {
          assert ops[1..][k] == ops[k + 1];
        }
      }
      var r := InhibitStep(held, ops[0].reply);
      InhibitAtMostOnce(r.held, ops[1..]);
    }
  }

  /** After a release nothing is held, whatever happened before. */
  lemma {:induction false} ReleaseClears(held: Option<int>, ops: seq<ProviderOp>)
    ensures HeldAfter(held, ops + [Release]) == None
    decreases |ops|
  {
    if ops != [] {
      assert (ops + [Release])[1..] == ops[1..] + [Release];
      match ops[0]
      case Inhibit(reply) => ReleaseClears(InhibitStep(held, reply).held, ops[1..]);
      case Release => ReleaseClears(None, ops[1..]);
    } else {
      assert HeldAfter(None, []) == None;
    }
  }

  /** LogindProvider and ConsoleKit2Provider: the interface, its validity and the held sleep
      inhibitor descriptor. */
  class Provider {
    const kind: ProviderKind
    const interfaceValid: bool
    /** mMethodInhibitPresent of ConsoleKit2; logind has none. */
    const methodInhibitPresent: bool
    /** Whether the constructor connected PrepareForSleep and Lock to the provider's own
        aboutToSleep and lockRequested signals. */
    const forwardsSignals: bool
    /** mFileDescriptor. */
    var fd: Option<int>
    /** How many times the Inhibit D-Bus method was called. */
    var inhibitCalls: nat

    /** The constructor: ConsoleKit2 introspects its interface only when the interface is
        valid; the signals are connected only when the provider is valid. */
    constructor(kind: ProviderKind, interfaceValid: bool, introspection: string)
      ensures this.kind == kind && this.interfaceValid == interfaceValid
      ensures methodInhibitPresent <==> kind == ConsoleKit2 && interfaceValid && Contains(introspection, InhibitMethod)
      ensures IsValid() == ProviderValid(kind, interfaceValid, introspection)
      ensures forwardsSignals == IsValid()
      ensures fd == None && inhibitCalls == 0
    {
      this.kind := kind;
      this.interfaceValid := interfaceValid;
      var present := false;
      if kind == ConsoleKit2 && interfaceValid {
        present := Contains(introspection, InhibitMethod);
      }
      methodInhibitPresent := present;
      forwardsSignals := if kind == Logind then interfaceValid else interfaceValid && present;
      fd := None;
      inhibitCalls := 0;
    }

    function IsValid(): bool
    {
      match kind
      case Logind => interfaceValid
      case ConsoleKit2 => interfaceValid && methodInhibitPresent
    }

    method Inhibit(reply: Option<int>) returns (ok: bool)
      modifies this
      ensures var r := InhibitStep(old(fd), reply);
        && ok == r.ok && fd == r.held
        && inhibitCalls == old(inhibitCalls) + (if r.called then 1 else 0)
    {
      if fd.Some? {
        return false;
      }
      inhibitCalls := inhibitCalls + 1;
      if reply.None? {
        return false;
      }
      fd := reply;
      ok := true;
    }

    method Release()
      modifies this
      ensures fd == None && inhibitCalls == old(inhibitCalls)
    {
      fd := None;
    }

    /** The destructor releases the descriptor. */
    method Destroy()
      modifies this
      ensures fd == None && inhibitCalls == old(inhibitCalls)
    {
      Release();
    }
  }

  // ---------------------------------------------------------------------------------------
  // The manager

  /** What the manager does that is seen outside it. */
  datatype Effect = LockScreenCall | InhibitWarning | ScheduleRelease(delay: int)

  /** What can happen to a started manager. */
  datatype Event =
    | LockRequested
    | AboutToSleep(beforeSleep: bool, reply: Option<int>)
    | ScreenSaverDone
    | ReleaseTimer

  /** The state of the manager and of its provider's inhibitor. */
  datatype Session = Session(
    connected: bool,
    lockBeforeSleep: bool,
    latched: bool,
    held: Option<int>,
    calls: nat,
    pending: nat,
    delay: int,
    effects: seq<Effect>)

  /** The manager's inhibit: the provider's inhibit, and a warning when it returns false. */
  function InhibitSession(s: Session, reply: Option<int>): Session
  {
    var r := InhibitStep(s.held, reply);
    s.(held := r.held, calls := s.calls + (if r.called then 1 else 0),
       effects := s.effects + (if r.ok then [] else [InhibitWarning]))
  }

  /** The state after startup: with no valid provider nothing is connected; otherwise the
      done and lock handlers are, and the sleep handler and the first inhibit only when
      locking before sleep is configured. */
  function Started(ok: bool, lockBeforeSleep: bool, delay: int, reply: Option<int>, latched: bool, effects: seq<Effect>): Session
  {
    var s := Session(ok, ok && lockBeforeSleep, latched, None, 0, 0, delay, effects);
    if ok && lockBeforeSleep then InhibitSession(s, reply) else s
  }

  /** The handlers startup connects. */
  function Step(s: Session, e: Event): Session
  {
    match e
    case LockRequested =>
      if s.connected then s.(effects := s.effects + [LockScreenCall]) else s
    case AboutToSleep(beforeSleep, reply) =>
      if !s.lockBeforeSleep then s
      else if beforeSleep then s.(latched := true, effects := s.effects + [LockScreenCall])
      else InhibitSession(s, reply)
    case ScreenSaverDone =>
      if s.connected && s.latched then
        s.(latched := false, pending := s.pending + 1, effects := s.effects + [ScheduleRelease(s.delay)])
      else s
    case ReleaseTimer =>
      if s.pending > 0 then s.(pending := s.pending - 1, held := None) else s
  }

  function Run(s: Session, events: seq<Event>): Session
    decreases |events|
  {
    if events == [] then s else Run(Step(s, events[0]), events[1..])
  }

  function CountSchedules(effects: seq<Effect>): nat
  {
    if effects == [] then 0
    else (if effects[0].ScheduleRelease? then 1 else 0) + CountSchedules(effects[1..])
  }

  /** How many events announce an imminent sleep. */
  function CountSleeps(events: seq<Event>): nat
  {
    if events == [] then 0
    else (if events[0].AboutToSleep? && events[0].beforeSleep then 1 else 0) + CountSleeps(events[1..])
  }

  lemma {:induction false} CountSchedulesAppend(a: seq<Effect>, b: seq<Effect>)
    ensures CountSchedules(a + b) == CountSchedules(a) + CountSchedules(b)
  {
    if a != [] {
      assert (a + b)[1..] == a[1..] + b;
      CountSchedulesAppend(a[1..], b);
    } else {
      assert a + b == b;
    }
  }

  /** The latch together with the releases already scheduled grows only with sleep
      announcements. */
  lemma StepLatch(s: Session, e: Event)
    ensures var t := Step(s, e);
      CountSchedules(t.effects) + (if t.latched then 1 else 0)
        <= CountSchedules(s.effects) + (if s.latched then 1 else 0)
           + (if e.AboutToSleep? && e.beforeSleep then 1 else 0)
  {
    var t := Step(s, e);
    var extra: seq<Effect> :|  t.effects == s.effects + extra && CountSchedules(extra) <= 1
      && (CountSchedules(extra) == 1 ==> s.latched && !t.latched) by {
      match e
      case LockRequested =>
        if s.connected {
          assert t.effects == s.effects + [LockScreenCall];
          assert CountSchedules([LockScreenCall]) == 0;
        } else {
          assert t.effects == s.effects + [];
        }
      case AboutToSleep(b, reply) =>
        if s.lockBeforeSleep && b {
          assert t.effects == s.effects + [LockScreenCall];
          assert CountSchedules([LockScreenCall]) == 0;
        } else if s.lockBeforeSleep {
          var w: seq<Effect> := if InhibitStep(s.held, reply).ok then [] else [InhibitWarning];
          assert t.effects == s.effects + w;
          assert CountSchedules([InhibitWarning]) == 0;
        } else {
          assert t.effects == s.effects + [];
        }
      case ScreenSaverDone =>
        if s.connected && s.latched {
          assert t.effects == s.effects + [ScheduleRelease(s.delay)];
          assert CountSchedules([ScheduleRelease(s.delay)]) == 1;
        } else {
          assert t.effects == s.effects + [];
        }
      case ReleaseTimer =>
        assert t.effects == s.effects + [];
    }
    CountSchedulesAppend(s.effects, extra);
  }

  /** Every release the manager schedules answers its own sleep announcement: the releases
      scheduled over a run never outnumber the announcements, plus one for a latch already
      set. */
  lemma {:induction false} ReleasesFollowSleeps(s: Session, events: seq<Event>)
    ensures CountSchedules(Run(s, events).effects)
              <= CountSchedules(s.effects) + CountSleeps(events) + (if s.latched then 1 else 0)
  {
    ReleasesFollowSleepsLatch(s, events);
  }

  lemma {:induction false} ReleasesFollowSleepsLatch(s: Session, events: seq<Event>)
    ensures var t := Run(s, events);
      CountSchedules(t.effects) + (if t.latched then 1 else 0)
        <= CountSchedules(s.effects) + CountSleeps(events) + (if s.latched then 1 else 0)
    decreases |events|
  {
    if events != [] {
      StepLatch(s, events[0]);
      ReleasesFollowSleepsLatch(Step(s, events[0]), events[1..]);
    }
  }

  /** Without locking before sleep, the manager never calls Inhibit, never latches and never
      schedules a release. */
  lemma {:induction false} NoLockBeforeSleep(s: Session, events: seq<Event>)
    requires !s.lockBeforeSleep && !s.latched
    ensures var t := Run(s, events);
      t.calls == s.calls && !t.latched && !t.lockBeforeSleep
      && CountSchedules(t.effects) == CountSchedules(s.effects)
    decreases |events|
  {
    if events != [] {
      var u := Step(s, events[0]);
      assert CountSchedules(u.effects) == CountSchedules(s.effects) by {
        if events[0].LockRequested? && s.connected {
          CountSchedulesAppend(s.effects, [LockScreenCall]);
          assert CountSchedules([LockScreenCall]) == 0;
        } else {
          assert u.effects == s.effects;
        }
      }
      NoLockBeforeSleep(u, events[1..]);
    }
  }

  /** A manager that found no provider reacts to nothing. */
  lemma {:induction false} NoProviderNoEffect(s: Session, events: seq<Event>)
    requires !s.connected && !s.lockBeforeSleep && s.pending == 0
    ensures Run(s, events) == s
  {
    if events != [] {
      assert Step(s, events[0]) == s;
      NoProviderNoEffect(s, events[1..]);
    }
  }

  /** A done report releases the latch: afterwards the manager is not latched, and a release
      was scheduled exactly when it was latched. */
  lemma DoneResetsLatch(s: Session)
    requires s.connected
    ensures var t := Step(s, ScreenSaverDone);
      && !t.latched
      && (t.pending == s.pending + 1 <==> s.latched)
      && (t.pending == s.pending <==> !s.latched)
  {
  }

  /** LockScreenManager: the chosen provider, the mLockedBeforeSleep latch, the handlers that
      startup connected, and the release timers that are still pending. */
  class LockScreenManager {
    var provider: Provider?
    /** mLockedBeforeSleep. */
    var lockedBeforeSleep: bool
    /** The screensaver done handler and the lockRequested handler. */
    var handlersConnected: bool
    /** The aboutToSleep handler. */
    var sleepHandlerConnected: bool
    var powerAfterLockDelay: int
    /** Release timers started and not yet fired. */
    var pendingReleases: nat
    var trace: seq<Effect>

    ghost predicate Valid()
      reads this
    {
      (handlersConnected || sleepHandlerConnected || pendingReleases > 0) ==> provider != null
    }

    function State(): Session
      reads this, provider
    {
      Session(handlersConnected, sleepHandlerConnected, lockedBeforeSleep,
              if provider != null then provider.fd else None,
              if provider != null then provider.inhibitCalls else 0,
              pendingReleases, powerAfterLockDelay, trace)
    }

    constructor()
      ensures Valid() && provider == null && !lockedBeforeSleep
      ensures !handlersConnected && !sleepHandlerConnected && pendingReleases == 0 && trace == []
    {
      provider := null;
      lockedBeforeSleep := false;
      handlersConnected := false;
      sleepHandlerConnected := false;
      powerAfterLockDelay := 0;
      pendingReleases := 0;
      trace := [];
    }

    /** startup: the provider fallback, the handlers, and the first inhibit when locking before
        sleep is configured. */
    method Startup(lockBeforeSleep: bool, powerAfterLockDelay: int, logindValid: bool,
                   consoleKitInterfaceValid: bool, consoleKitIntrospection: string, reply: Option<int>)
      returns (ok: bool)
      requires provider == null && !handlersConnected && !sleepHandlerConnected && pendingReleases == 0
      modifies this
      ensures Valid()
      ensures ok <==> provider != null
      ensures var choice := ChooseProvider(logindValid,
                              ProviderValid(ConsoleKit2, consoleKitInterfaceValid, consoleKitIntrospection));
        && (provider == null <==> choice == None)
        && (provider != null ==> fresh(provider) && choice == Some(provider.kind) && provider.IsValid())
      ensures provider != null && provider.kind == Logind <==> logindValid
      ensures provider != null && provider.kind == ConsoleKit2 <==>
                !logindValid && ProviderValid(ConsoleKit2, consoleKitInterfaceValid, consoleKitIntrospection)
      ensures provider == null <==>
                !logindValid && !ProviderValid(ConsoleKit2, consoleKitInterfaceValid, consoleKitIntrospection)
      ensures State() == Started(ok, lockBeforeSleep, powerAfterLockDelay, reply, old(lockedBeforeSleep), old(trace))
    {
      var logind := new Provider(Logind, logindValid, "");
      if logind.IsValid() {
        provider := logind;
      } else {
        var consoleKit := new Provider(ConsoleKit2, consoleKitInterfaceValid, consoleKitIntrospection);
        if consoleKit.IsValid() {
          provider := consoleKit;
        } else {
          provider := null;
        }
      }
      this.powerAfterLockDelay := powerAfterLockDelay;
      if provider == null {
        return false;
      }
      handlersConnected := true;
      if lockBeforeSleep {
        sleepHandlerConnected := true;
        Inhibit(reply);
      }
      ok := true;
    }

    /** inhibit: asks the provider, and warns when it refuses. */
    method Inhibit(reply: Option<int>)
      requires provider != null
      modifies provider, this
      ensures provider == old(provider) && State() == InhibitSession(old(State()), reply)
      ensures handlersConnected == old(handlersConnected) && sleepHandlerConnected == old(sleepHandlerConnected)
    {
      var ok := provider.Inhibit(reply);
      if !ok {
        trace := trace + [InhibitWarning];
      }
    }

    /** The lockRequested handler. */
    method OnLockRequested()
      modifies this
      ensures provider == old(provider) && State() == Step(old(State()), LockRequested)
      ensures handlersConnected == old(handlersConnected) && sleepHandlerConnected == old(sleepHandlerConnected)
    {
      if handlersConnected {
        trace := trace + [LockScreenCall];
      }
    }

    /** The aboutToSleep handler, connected only when locking before sleep. */
    method OnAboutToSleep(beforeSleep: bool, reply: Option<int>)
      requires Valid()
      modifies this, provider
      ensures Valid()
      ensures provider == old(provider) && State() == Step(old(State()), AboutToSleep(beforeSleep, reply))
      ensures handlersConnected == old(handlersConnected) && sleepHandlerConnected == old(sleepHandlerConnected)
    {
      if !sleepHandlerConnected {
        return;
      }
      if beforeSleep {
        lockedBeforeSleep := true;
        trace := trace + [LockScreenCall];
      } else {
        Inhibit(reply);
      }
    }

    /** The screensaver done handler: a release is scheduled only after a lock before sleep. */
    method OnScreenSaverDone()
      requires Valid()
      modifies this
      ensures Valid()
      ensures provider == old(provider) && State() == Step(old(State()), ScreenSaverDone)
      ensures handlersConnected == old(handlersConnected) && sleepHandlerConnected == old(sleepHandlerConnected)
    {
      if handlersConnected && lockedBeforeSleep {
        lockedBeforeSleep := false;
        pendingReleases := pendingReleases + 1;
        trace := trace + [ScheduleRelease(powerAfterLockDelay)];
      }
    }

    /** A release timer fires: the provider drops its descriptor. */
    method OnReleaseTimer()
      requires Valid() && pendingReleases > 0
      modifies this, provider
      ensures Valid()
      ensures provider == old(provider) && State() == Step(old(State()), ReleaseTimer)
      ensures handlersConnected == old(handlersConnected) && sleepHandlerConnected == old(sleepHandlerConnected)
    {
      provider.Release();
      pendingReleases := pendingReleases - 1;
    }

    /** The destructor deletes the provider, whose destructor releases the descriptor. */
    method Destroy()
      modifies provider
      ensures provider != null ==> provider.fd == None
    {
      if provider != null {
        provider.Destroy();
      }
    }
  }
}
