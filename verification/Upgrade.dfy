/** The `upgrade` sub-command: `Run` of pkg/cli/upgrade/upgrade.go. */
module Upgrade {
  import opened Component
  import opened Text
  import ComponentDirs

  datatype Key = Macula | K3s | Kernel

  datatype Flags = Flags(macula: bool, k3s: bool, kernel: bool, remount: bool, sync: bool, reboot: bool)

  predicate Enabled(flags: Flags, key: Key) {
    match key case Macula => flags.macula case K3s => flags.k3s case Kernel => flags.kernel
  }

  /** What an onlooker sees of a run: remounts, disk states per component, sync and reboot. */
  datatype Happening = Remount | Write(key: Key, entries: Entries) | Sync | Reboot

  /** What happens outside the component directories. */
  datatype Outside = Outside(sourceValid: bool, destinationValid: bool, lockOpens: bool, lockFree: bool)

  /** One value for each component. */
  datatype PerKey<T> = PerKey(macula: T, k3s: T, kernel: T) {
    function Get(key: Key): T {
      match key case Macula => macula case K3s => k3s case Kernel => kernel
    }
    function Set(key: Key, value: T): PerKey<T> {
      match key
      case Macula => this.(macula := value)
      case K3s => this.(k3s := value)
      case Kernel => this.(kernel := value)
    }
  }

  type Dirs = PerKey<Entries>
  type Plans = PerKey<Faults>

  datatype State = State(dirs: Dirs, doRemount: bool, anyCopied: bool, log: seq<Happening>)

  function Tag(key: Key, event: Event): Happening {
    match event case Remounted => Remount case Wrote(e) => Write(key, e)
  }

  function Tagged(key: Key, log: seq<Event>): seq<Happening> {
    seq(|log|, i requires 0 <= i < |log| => Tag(key, log[i]))
  }

  function UpgradeOne(s: State, flags: Flags, key: Key, src: Dirs, plans: Plans): State {
    if !Enabled(flags, key) then s
    else
      var o := Copy(World(s.dirs.Get(key), []), src.Get(key), s.doRemount, plans.Get(key));
      State(s.dirs.Set(key, o.w.entries), s.doRemount && !o.copied, s.anyCopied || o.copied, s.log + Tagged(key, o.w.log))
  }

  function UpgradeAll(dirs: Dirs, flags: Flags, src: Dirs, plans: Plans): State {
    var s0 := State(dirs, flags.remount, false, []);
    var s1 := UpgradeOne(s0, flags, Macula, src, plans);
    var s2 := UpgradeOne(s1, flags, K3s, src, plans);
    UpgradeOne(s2, flags, Kernel, src, plans)
  }

  function Finished(s: State, flags: Flags): State {
    var s1 := if s.anyCopied && flags.sync then s.(log := s.log + [Sync]) else s;
    if s1.anyCopied && flags.reboot then s1.(log := s1.log + [Reboot]) else s1
  }

  // ---------------------------------------------------------------- what a run means

  /** The copying of one component, as if it were the only one; `r` says whether it is to remount first. */
  function TurnOf(before: Dirs, src: Dirs, plans: Plans, r: PerKey<bool>, k: Key): Outcome {
    Copy(World(before.Get(k), []), src.Get(k), r.Get(k), plans.Get(k))
  }

  predicate WasCopied(before: Dirs, flags: Flags, src: Dirs, plans: Plans, r: PerKey<bool>, k: Key) {
    Enabled(flags, k) && TurnOf(before, src, plans, r, k).copied
  }

  /** What an onlooker sees of one component's turn. */
  function Seen(before: Dirs, flags: Flags, src: Dirs, plans: Plans, r: PerKey<bool>, k: Key): seq<Happening> {
    if Enabled(flags, k) then Tagged(k, TurnOf(before, src, plans, r, k).w.log) else []
  }

  /** A whole run, component by component: each enabled one gets what copying it alone would give, the
      others stay as they are; it remounts until the first copy; whether anything was copied, and what is
      seen, is exactly what the turns say, and sync and reboot follow. */
  predicate Ran(before: Dirs, n: State, flags: Flags, src: Dirs, plans: Plans, r: PerKey<bool>) {
    && (forall k: Key :: n.dirs.Get(k) == if Enabled(flags, k) then TurnOf(before, src, plans, r, k).w.entries else before.Get(k))
    && (n.anyCopied <==> exists k: Key :: WasCopied(before, flags, src, plans, r, k))
    && r.macula == flags.remount
    && r.k3s == (flags.remount && !WasCopied(before, flags, src, plans, r, Macula))
    && r.kernel == (r.k3s && !WasCopied(before, flags, src, plans, r, K3s))
    && n.log == Seen(before, flags, src, plans, r, Macula) + Seen(before, flags, src, plans, r, K3s)
              + Seen(before, flags, src, plans, r, Kernel)
              + (if n.anyCopied && flags.sync then [Sync] else []) + (if n.anyCopied && flags.reboot then [Reboot] else [])
  }

  /** One turn in the run. */
  lemma OneTurn(s: State, flags: Flags, k: Key, src: Dirs, plans: Plans, before: Dirs, r: PerKey<bool>)
    requires s.dirs.Get(k) == before.Get(k) && r.Get(k) == s.doRemount
    ensures var n := UpgradeOne(s, flags, k, src, plans);
      && n.dirs.Get(k) == (if Enabled(flags, k) then TurnOf(before, src, plans, r, k).w.entries else before.Get(k))
      && (forall j: Key | j != k :: n.dirs.Get(j) == s.dirs.Get(j))
      && n.doRemount == (s.doRemount && !WasCopied(before, flags, src, plans, r, k))
      && n.anyCopied == (s.anyCopied || WasCopied(before, flags, src, plans, r, k))
      && n.log == s.log + Seen(before, flags, src, plans, r, k)
  {
  }

  lemma RunMeans(dirs: Dirs, flags: Flags, src: Dirs, plans: Plans) returns (r: PerKey<bool>)
    ensures Ran(dirs, Finished(UpgradeAll(dirs, flags, src, plans), flags), flags, src, plans, r)
  {
    var s0 := State(dirs, flags.remount, false, []);
    var s1 := UpgradeOne(s0, flags, Macula, src, plans);
    var s2 := UpgradeOne(s1, flags, K3s, src, plans);
    var s3 := UpgradeOne(s2, flags, Kernel, src, plans);
    r := PerKey(s0.doRemount, s1.doRemount, s2.doRemount);
    OneTurn(s0, flags, Macula, src, plans, dirs, r);
    OneTurn(s1, flags, K3s, src, plans, dirs, r);
    OneTurn(s2, flags, Kernel, src, plans, dirs, r);
    forall k: Key
      ensures s3.dirs.Get(k) == if Enabled(flags, k) then TurnOf(dirs, src, plans, r, k).w.entries else dirs.Get(k)
    {
      match k
      case Macula => assert s3.dirs.Get(k) == s2.dirs.Get(k) == s1.dirs.Get(k);
      case K3s => assert s3.dirs.Get(k) == s2.dirs.Get(k);
      case Kernel =>
    }
    RanFrom(dirs, s0, s1, s2, s3, flags, src, plans, r);
  }

  lemma RanFrom(before: Dirs, s0: State, s1: State, s2: State, s3: State, flags: Flags, src: Dirs, plans: Plans, r: PerKey<bool>)
    requires r == PerKey(s0.doRemount, s1.doRemount, s2.doRemount) && s0 == State(before, flags.remount, false, [])
    requires s1.doRemount == (s0.doRemount && !WasCopied(before, flags, src, plans, r, Macula))
    requires s2.doRemount == (s1.doRemount && !WasCopied(before, flags, src, plans, r, K3s))
    requires s1.anyCopied == WasCopied(before, flags, src, plans, r, Macula)
    requires s2.anyCopied == (s1.anyCopied || WasCopied(before, flags, src, plans, r, K3s))
    requires s3.anyCopied == (s2.anyCopied || WasCopied(before, flags, src, plans, r, Kernel))
    requires s1.log == Seen(before, flags, src, plans, r, Macula)
    requires s2.log == s1.log + Seen(before, flags, src, plans, r, K3s)
    requires s3.log == s2.log + Seen(before, flags, src, plans, r, Kernel)
    requires forall k: Key :: s3.dirs.Get(k) == if Enabled(flags, k) then TurnOf(before, src, plans, r, k).w.entries else before.Get(k)
    ensures Ran(before, Finished(s3, flags), flags, src, plans, r)
  {
    var n := Finished(s3, flags);
    FinishedLog(s3, flags);
    assert n.anyCopied == s3.anyCopied;
    if exists k: Key :: WasCopied(before, flags, src, plans, r, k) {
      var k: Key :| WasCopied(before, flags, src, plans, r, k);
      assert k == Macula || k == K3s || k == Kernel;
    }
  }

  /** Nothing blocks another version: no leftover of an earlier attempt, and the system fails nowhere. */
  predicate Unblocked(pre: Entries, src: Entries, f: Faults) {
    && ComponentVersion(src, CURRENT).Some?
    && var v := ComponentVersion(src, CURRENT).value;
    && Offers(src, v) && f == NO_FAULTS.(suffix := f.suffix) && v + f.suffix !in pre
    && CURRENT in pre && pre[CURRENT].Link? && var o := pre[CURRENT].target;
    && o in pre && On(pre, o, pre[o])
    && (v in pre ==> !pre[v].Link?) && CURRENT_TMP !in pre && (v in pre && pre[v].Dir? ==> Old(v) !in pre)
  }

  /** A component with a version to install, and nothing in the way, ends at the source's version, however
      the others fare. */
  lemma UnblockedEndsAtSource(before: Dirs, n: State, flags: Flags, src: Dirs, plans: Plans, r: PerKey<bool>, k: Key)
    requires Ran(before, n, flags, src, plans, r) && Enabled(flags, k)
    requires Unblocked(before.Get(k), src.Get(k), plans.Get(k))
    ensures AtSource(n.dirs, src, k)
    ensures n.anyCopied || At(before.Get(k), CURRENT) == Some(Link(ComponentVersion(src.Get(k), CURRENT).value))
  {
    var pre, f := before.Get(k), plans.Get(k);
    var o, v := pre[CURRENT].target, ComponentVersion(src.Get(k), CURRENT).value;
    if o == v {
      assert ComponentVersion(pre, CURRENT) == Some(o);
    } else {
      InstallsUnlessBlocked(pre, src.Get(k), r.Get(k), f.suffix, o, v);
      CopiedMeansSwitched(pre, src.Get(k), r.Get(k), f, o, v);
      assert WasCopied(before, flags, src, plans, r, k);
    }
  }

  class Upgrader {
    var dirs: Dirs
    var doRemount: bool
    var anyCopied: bool
    ghost var log: seq<Happening>

    ghost function View(): State
      reads this
    {
      State(dirs, doRemount, anyCopied, log)
    }

    constructor (initial: Dirs)
      ensures dirs == initial && log == []
    {
      dirs := initial;
      log := [];
    }

    method UpgradeComponent(flags: Flags, key: Key, src: Dirs, plans: Plans)
      modifies this
      ensures View() == UpgradeOne(old(View()), flags, key, src, plans)
    {
      if Enabled(flags, key) {
        var dir := new ComponentDirs.ComponentDir(dirs.Get(key));
        var copied, ok := dir.CopyComponent(src.Get(key), doRemount, plans.Get(key));
        dirs := dirs.Set(key, dir.entries);
        log := log + Tagged(key, dir.log);
        if ok && copied {
          anyCopied := true;
          doRemount := false;
        }
        CopiedIsOk(World(old(dirs).Get(key), []), src.Get(key), old(doRemount), plans.Get(key));
      }
    }

    /** `Run`; false when it ends with a fatal error before touching anything. */
    method Run(flags: Flags, src: Dirs, plans: Plans, outside: Outside) returns (ran: bool)
      requires log == []
      modifies this
      ensures ran == (outside.sourceValid && outside.destinationValid && outside.lockOpens && outside.lockFree)
      ensures !ran ==> View() == old(View())
      ensures ran ==> View() == Finished(UpgradeAll(old(dirs), flags, src, plans), flags)
      ensures ran ==> exists r: PerKey<bool> :: Ran(old(dirs), View(), flags, src, plans, r)
    {
      if !outside.sourceValid || !outside.destinationValid || !outside.lockOpens || !outside.lockFree {
        return false;
      }
      doRemount, anyCopied := flags.remount, false;
      UpgradeComponent(flags, Macula, src, plans);
      UpgradeComponent(flags, K3s, src, plans);
      UpgradeComponent(flags, Kernel, src, plans);
      if anyCopied && flags.sync {
        log := log + [Sync];
      }
      if anyCopied && flags.reboot {
        log := log + [Reboot];
      }
      ran := true;
      ghost var r := RunMeans(old(dirs), flags, src, plans);
    }
  }

  // ---------------------------------------------------------------- remount before every write

  predicate RemountedBefore(log: seq<Happening>, i: nat)
    requires i <= |log|
  {
    exists j :: 0 <= j < i && log[j] == Remount
  }

  predicate WritesRemounted(log: seq<Happening>) {
    forall i | 0 <= i < |log| && log[i].Write? :: RemountedBefore(log, i)
  }

  predicate Guarded(s: State) {
    WritesRemounted(s.log) && (s.doRemount || RemountedBefore(s.log, |s.log|))
  }

  lemma UpgradeOneGuarded(s: State, flags: Flags, key: Key, src: Dirs, plans: Plans)
    requires Guarded(s)
    ensures Guarded(UpgradeOne(s, flags, key, src, plans))
  {
    if Enabled(flags, key) {
      var o := Copy(World(s.dirs.Get(key), []), src.Get(key), s.doRemount, plans.Get(key));
      var n := UpgradeOne(s, flags, key, src, plans);
      CopyLogged(s.dirs.Get(key), src.Get(key), s.doRemount, plans.Get(key));
      if s.doRemount && o.w.log != [] {
        assert n.log[|s.log|] == Remount;
      }
      if !s.doRemount {
        var j :| 0 <= j < |s.log| && s.log[j] == Remount;
        assert n.log[j] == Remount;
      }
      forall i | 0 <= i < |n.log| && n.log[i].Write?
        ensures RemountedBefore(n.log, i)
      {
        if i < |s.log| {
          assert RemountedBefore(s.log, i);
          var j :| 0 <= j < i && s.log[j] == Remount;
          assert n.log[j] == Remount;
        }
      }
    }
  }

  /** With the remount flag every write, to any component, comes after a successful remount, whatever
      mix of skips, failures and copies the run is. */
  lemma EveryWriteRemounted(dirs: Dirs, flags: Flags, src: Dirs, plans: Plans)
    requires flags.remount
    ensures WritesRemounted(Finished(UpgradeAll(dirs, flags, src, plans), flags).log)
  {
    var s0 := State(dirs, flags.remount, false, []);
    var s1 := UpgradeOne(s0, flags, Macula, src, plans);
    var s2 := UpgradeOne(s1, flags, K3s, src, plans);
    var s3 := UpgradeOne(s2, flags, Kernel, src, plans);
    UpgradeOneGuarded(s0, flags, Macula, src, plans);
    UpgradeOneGuarded(s1, flags, K3s, src, plans);
    UpgradeOneGuarded(s2, flags, Kernel, src, plans);
    var log := Finished(s3, flags).log;
    forall i | 0 <= i < |log| && log[i].Write?
      ensures RemountedBefore(log, i)
    {
      assert RemountedBefore(s3.log, i);
      var j :| 0 <= j < i && s3.log[j] == Remount;
      assert log[j] == Remount;
    }
  }

  // ---------------------------------------------------------------- sync and reboot

  /** The component now runs the version its source offers. */
  predicate AtSource(dirs: Dirs, src: Dirs, key: Key) {
    ComponentVersion(src.Get(key), CURRENT).Some? &&
    At(dirs.Get(key), CURRENT) == Some(Link(ComponentVersion(src.Get(key), CURRENT).value))
  }

  predicate NoEnd(log: seq<Happening>) { Sync !in log && Reboot !in log }

  /** The effect of one component's turn. */
  predicate OneEnd(s: State, n: State, flags: Flags, key: Key, src: Dirs) {
    && NoEnd(n.log)
    && (forall k: Key | k != key || !Enabled(flags, key) :: n.dirs.Get(k) == s.dirs.Get(k))
    && (n.anyCopied && !s.anyCopied ==> Enabled(flags, key) && AtSource(n.dirs, src, key))
    && (s.anyCopied ==> n.anyCopied)
  }

  lemma UpgradeOneEnds(s: State, flags: Flags, key: Key, src: Dirs, plans: Plans)
    requires NoEnd(s.log)
    requires ComponentVersion(src.Get(key), CURRENT).Some? ==> Offers(src.Get(key), ComponentVersion(src.Get(key), CURRENT).value)
    ensures OneEnd(s, UpgradeOne(s, flags, key, src, plans), flags, key, src)
  {
    if Enabled(flags, key) {
      var o := Copy(World(s.dirs.Get(key), []), src.Get(key), s.doRemount, plans.Get(key));
      assert forall h | h in Tagged(key, o.w.log) :: h.Remount? || h.Write?;
      if o.copied {
        CopyEnds(World(s.dirs.Get(key), []), src.Get(key), s.doRemount, plans.Get(key), ComponentVersion(src.Get(key), CURRENT).value);
      }
    }
  }

  lemma ThreeTurns(s0: State, s1: State, s2: State, s3: State, flags: Flags, src: Dirs)
    requires OneEnd(s0, s1, flags, Macula, src) && OneEnd(s1, s2, flags, K3s, src) && OneEnd(s2, s3, flags, Kernel, src)
    requires !s0.anyCopied
    ensures NoEnd(s3.log)
    ensures s3.anyCopied ==> exists k: Key :: Enabled(flags, k) && AtSource(s3.dirs, src, k)
    ensures forall k: Key | !Enabled(flags, k) :: s3.dirs.Get(k) == s0.dirs.Get(k)
  {
    assert s3.dirs.Get(Macula) == s1.dirs.Get(Macula);
    assert s3.dirs.Get(K3s) == s2.dirs.Get(K3s);
    if s1.anyCopied {
      assert AtSource(s3.dirs, src, Macula);
    } else if s2.anyCopied {
      assert AtSource(s3.dirs, src, K3s);
    }
  }

  lemma FinishedLog(s: State, flags: Flags)
    ensures var n := Finished(s, flags);
      && n.dirs == s.dirs
      && n.log == s.log + (if s.anyCopied && flags.sync then [Sync] else []) + (if s.anyCopied && flags.reboot then [Reboot] else [])
  {
  }

  /** Sync and reboot come last, each exactly when its flag is set and some component was copied; and
      then an enabled component really is at its source version. Other components are untouched. */
  lemma EndsOnlyAfterCopy(dirs: Dirs, flags: Flags, src: Dirs, plans: Plans)
    requires forall k: Key :: ComponentVersion(src.Get(k), CURRENT).Some? ==> Offers(src.Get(k), ComponentVersion(src.Get(k), CURRENT).value)
    ensures var s := UpgradeAll(dirs, flags, src, plans); var n := Finished(s, flags);
      && NoEnd(s.log) && n.dirs == s.dirs
      && n.log == s.log + (if s.anyCopied && flags.sync then [Sync] else []) + (if s.anyCopied && flags.reboot then [Reboot] else [])
      && (s.anyCopied ==> exists k: Key :: Enabled(flags, k) && AtSource(n.dirs, src, k))
      && (forall k: Key | !Enabled(flags, k) :: n.dirs.Get(k) == dirs.Get(k))
  {
    var s0 := State(dirs, flags.remount, false, []);
    var s1 := UpgradeOne(s0, flags, Macula, src, plans);
    UpgradeOneEnds(s0, flags, Macula, src, plans);
    var s2 := UpgradeOne(s1, flags, K3s, src, plans);
    UpgradeOneEnds(s1, flags, K3s, src, plans);
    var s3 := UpgradeOne(s2, flags, Kernel, src, plans);
    UpgradeOneEnds(s2, flags, Kernel, src, plans);
    ThreeTurns(s0, s1, s2, s3, flags, src);
    FinishedLog(s3, flags);
  }
}

/** Any number of `upgrade` processes that share one lock file. */
module UpgradeLock {

  type Pid = nat

  datatype Phase = Starting | Opened | Holding | Ended

  datatype Event = Acquired(p: Pid) | Copied(p: Pid) | Released(p: Pid)

  /** `holder` is the process whose descriptor holds the exclusive lock. A process not in `phases` is starting. */
  datatype State = State(phases: map<Pid, Phase>, holder: set<Pid>, trace: seq<Event>)

  function PhaseOf(s: State, p: Pid): Phase { if p in s.phases then s.phases[p] else Starting }

  const INITIAL := State(map[], {}, [])

  /** Open the lock file, creating it if needed. */
  predicate Open(s: State, t: State, p: Pid) {
    PhaseOf(s, p) == Starting && t == s.(phases := s.phases[p := Opened])
  }

  /** `flock` with LOCK_EX | LOCK_NB: granted when nobody else holds it, otherwise the process ends. */
  predicate Flock(s: State, t: State, p: Pid) {
    && PhaseOf(s, p) == Opened
    && (if s.holder - {p} == {}
        then t == State(s.phases[p := Holding], s.holder + {p}, s.trace + [Acquired(p)])
        else t == s.(phases := s.phases[p := Ended]))
  }

  /** A step of the copy phase. */
  predicate CopyStep(s: State, t: State, p: Pid) {
    PhaseOf(s, p) == Holding && t == s.(trace := s.trace + [Copied(p)])
  }

  /** The end of a process, by the deferred unlock and close, by a fatal error or by being killed. The
      kernel drops its lock. */
  predicate End(s: State, t: State, p: Pid) {
    && PhaseOf(s, p) != Ended
    && t == State(s.phases[p := Ended], s.holder - {p}, s.trace + (if p in s.holder then [Released(p)] else []))
  }

  ghost predicate Step(s: State, t: State) {
    exists p: Pid :: Open(s, t, p) || Flock(s, t, p) || CopyStep(s, t, p) || End(s, t, p)
  }

  ghost predicate Behaviour(b: seq<State>) {
    |b| > 0 && b[0] == INITIAL && forall i | 0 <= i < |b| - 1 :: Step(b[i], b[i + 1])
  }

  predicate ReleasedBetween(trace: seq<Event>, p: Pid, i: int, j: int)
    requires 0 <= i && j <= |trace|
  {
    exists r :: i < r < j && trace[r] == Released(p)
  }

  /** The trace ends with a stretch of `p`'s own events that begins with its acquiring the lock. */
  predicate HoldsSince(trace: seq<Event>, p: Pid, a: int) {
    0 <= a < |trace| && trace[a] == Acquired(p) && forall j | a < j < |trace| :: trace[j].p == p
  }

  /** Whoever copied has released the lock since, unless it holds it still. */
  predicate CopiersReleased(s: State) {
    forall i | 0 <= i < |s.trace| && s.trace[i].Copied? ::
      s.trace[i].p in s.holder || ReleasedBetween(s.trace, s.trace[i].p, i, |s.trace|)
  }

  /** Nobody acquires the lock before all earlier copying is over. */
  predicate AcquiredAfterRelease(trace: seq<Event>) {
    forall i, a | 0 <= i < a < |trace| && trace[i].Copied? && trace[a].Acquired? ::
      ReleasedBetween(trace, trace[i].p, i, a)
  }

  predicate HandedOver(trace: seq<Event>, i: int, j: int)
    requires 0 <= i < j < |trace|
  {
    exists a :: i < a < j && trace[a] == Acquired(trace[j].p) && ReleasedBetween(trace, trace[i].p, i, a)
  }

  /** Between the copying of one process and that of another, the first released the lock and then the
      second acquired it: their copy phases never overlap. */
  predicate Separated(trace: seq<Event>) {
    forall i, j | 0 <= i < j < |trace| && trace[i].Copied? && trace[j].Copied? && trace[i].p != trace[j].p ::
      HandedOver(trace, i, j)
  }

  ghost predicate Inv(s: State) {
    && (forall p: Pid :: p in s.holder <==> PhaseOf(s, p) == Holding)
    && (forall p, q | p in s.holder && q in s.holder :: p == q)
    && (forall p | p in s.holder :: exists a :: HoldsSince(s.trace, p, a))
    && CopiersReleased(s) && AcquiredAfterRelease(s.trace) && Separated(s.trace)
  }

  /** What is true of a trace stays true of its beginning when an event is added. */
  lemma Extend(trace: seq<Event>, e: Event)
    requires AcquiredAfterRelease(trace) && Separated(trace)
    requires e.Acquired? ==> forall i | 0 <= i < |trace| && trace[i].Copied? :: ReleasedBetween(trace, trace[i].p, i, |trace|)
    requires e.Copied? ==> exists a :: HoldsSince(trace, e.p, a)
    ensures AcquiredAfterRelease(trace + [e]) && Separated(trace + [e])
  {
    var t := trace + [e];
    forall i, a | 0 <= i < a < |t| && t[i].Copied? && t[a].Acquired?
      ensures ReleasedBetween(t, t[i].p, i, a)
    {
      assert ReleasedBetween(trace, trace[i].p, i, a);
      var r :| i < r < a && trace[r] == Released(trace[i].p);
      assert t[r] == Released(t[i].p);
    }
    forall i, j | 0 <= i < j < |t| && t[i].Copied? && t[j].Copied? && t[i].p != t[j].p
      ensures HandedOver(t, i, j)
    {
      var a;
      if j < |trace| {
        assert HandedOver(trace, i, j);
        a :| i < a < j && trace[a] == Acquired(trace[j].p) && ReleasedBetween(trace, trace[i].p, i, a);
      } else {
        a :| HoldsSince(trace, e.p, a);
        assert i < a;
      }
      assert ReleasedBetween(trace, trace[i].p, i, a);
      var r :| i < r < a && trace[r] == Released(trace[i].p);
      assert t[r] == Released(t[i].p) && t[a] == Acquired(t[j].p);
    }
  }

  lemma ReleasedStays(s: State, e: Event)
    requires CopiersReleased(s)
    ensures forall i | 0 <= i < |s.trace| && s.trace[i].Copied? && s.trace[i].p !in s.holder ::
      ReleasedBetween(s.trace + [e], s.trace[i].p, i, |s.trace| + 1)
  {
    forall i | 0 <= i < |s.trace| && s.trace[i].Copied? && s.trace[i].p !in s.holder
      ensures ReleasedBetween(s.trace + [e], s.trace[i].p, i, |s.trace| + 1)
    {
      var r :| i < r < |s.trace| && s.trace[r] == Released(s.trace[i].p);
      assert (s.trace + [e])[r] == s.trace[r];
    }
  }

  lemma FlockKeeps(s: State, t: State, p: Pid)
    requires Inv(s) && Flock(s, t, p)
    ensures Inv(t)
  {
    if s.holder - {p} == {} {
      assert p !in s.holder && s.holder == {};
      assert HoldsSince(t.trace, p, |s.trace|);
      Extend(s.trace, Acquired(p));
      ReleasedStays(s, Acquired(p));
    }
  }

  lemma CopyStepKeeps(s: State, t: State, p: Pid)
    requires Inv(s) && CopyStep(s, t, p)
    ensures Inv(t)
  {
    var a :| HoldsSince(s.trace, p, a);
    assert HoldsSince(t.trace, p, a);
    Extend(s.trace, Copied(p));
    ReleasedStays(s, Copied(p));
  }

  lemma EndKeeps(s: State, t: State, p: Pid)
    requires Inv(s) && End(s, t, p)
    ensures Inv(t)
  {
    if p in s.holder {
      assert t.holder == {};
      assert t.trace[|s.trace|] == Released(p);
      Extend(s.trace, Released(p));
      ReleasedStays(s, Released(p));
    } else {
      assert t.trace == s.trace && t.holder == s.holder;
    }
  }

  lemma {:induction false} Reachable(b: seq<State>, i: nat)
    requires Behaviour(b) && i < |b|
    ensures Inv(b[i])
  {
    if i == 0 {
    } else {
      Reachable(b, i - 1);
      var s, t := b[i - 1], b[i];
      assert Step(s, t);
      var p: Pid :| Open(s, t, p) || Flock(s, t, p) || CopyStep(s, t, p) || End(s, t, p);
      if Flock(s, t, p) {
        FlockKeeps(s, t, p);
      } else if CopyStep(s, t, p) {
        CopyStepKeeps(s, t, p);
      } else if End(s, t, p) {
        EndKeeps(s, t, p);
      }
    }
  }

  /** In every behaviour of any number of processes, at most one is in its copy phase, and the copying
      of different processes is separated by a release and an acquisition of the lock. */
  lemma OneCopierAtATime(b: seq<State>, i: nat, p: Pid, q: Pid)
    requires Behaviour(b) && i < |b|
    ensures PhaseOf(b[i], p) == Holding && PhaseOf(b[i], q) == Holding ==> p == q
    ensures Separated(b[i].trace)
  {
    Reachable(b, i);
  }
}
