/** The health daemon: `watchAction` and `handleFailure` of pkg/cli/health/health.go, and the list of
    checks that `addAction` and `removeAction` edit. */
module Health {

  /** The part of a check that decides what happens when it fails. */
  datatype Check = Check(name: string, action: string, maxRestarts: int, path: string)

  datatype Status = Ok | Warn | Fail

  /** What the daemon does about a failure. */
  datatype Deed = Alert(name: string) | Restart(name: string) | GiveUp(name: string) | Cleanup(path: string)

  /** The status of each check in one round, in the order of the checks. */
  type Round = seq<Status>

  /** The names of the checks that failed in one round, in order. */
  function FailedIn(checks: seq<Check>, round: Round): seq<string>
    requires |round| == |checks|
  {
    if checks == [] then []
    else
      var n := |checks| - 1;
      FailedIn(checks[..n], round[..n]) + if round[n] != Ok then [checks[n].name] else []
  }

  /** The same for all rounds. */
  function Failed(checks: seq<Check>, rounds: seq<Round>): seq<string>
    requires forall r | r in rounds :: |r| == |checks|
  {
    if rounds == [] then []
    else Failed(checks, rounds[..|rounds| - 1]) + FailedIn(checks, rounds[|rounds| - 1])
  }

  /** The results of one round that are a failure of this name. */
  function FailuresOf(checks: seq<Check>, round: Round, name: string): set<int>
    requires |round| == |checks|
  {
    set i | 0 <= i < |checks| && checks[i].name == name && round[i] != Ok
  }

  lemma LastFailure(checks: seq<Check>, round: Round, name: string)
    requires |round| == |checks| && checks != []
    ensures var n := |checks| - 1;
      |FailuresOf(checks, round, name)|
      == |FailuresOf(checks[..n], round[..n], name)| + if checks[n].name == name && round[n] != Ok then 1 else 0
  {
    var n := |checks| - 1;
    var before := FailuresOf(checks[..n], round[..n], name);
    assert n !in before;
    assert FailuresOf(checks, round, name) == before + if checks[n].name == name && round[n] != Ok then {n} else {};
  }

  lemma {:induction false} FailedMeans(checks: seq<Check>, round: Round, name: string)
    requires |round| == |checks|
    ensures multiset(FailedIn(checks, round))[name] == |FailuresOf(checks, round, name)|
  {
    if checks == [] {
      assert FailuresOf(checks, round, name) == {};
    } else {
      var n := |checks| - 1;
      FailedMeans(checks[..n], round[..n], name);
      LastFailure(checks, round, name);
    }
  }

  /** The first check with this name. */
  function First(checks: seq<Check>, name: string): (i: nat)
    ensures i <= |checks| && (forall j | 0 <= j < i :: checks[j].name != name)
    ensures i < |checks| ==> checks[i].name == name
  {
    if checks == [] || checks[0].name == name then 0 else 1 + First(checks[1..], name)
  }

  /** What the first check of this name says is to be done. */
  predicate Does(checks: seq<Check>, name: string, action: string) {
    var i := First(checks, name);
    i < |checks| && checks[i].action == action
  }

  /** The restarts the first check of this name allows. */
  function Allowed(checks: seq<Check>, name: string): nat {
    if Does(checks, name, "restart") && checks[First(checks, name)].maxRestarts > 0
    then checks[First(checks, name)].maxRestarts else 0
  }

  /** The first check of this name cleans up this path. */
  predicate Cleans(checks: seq<Check>, name: string, path: string) {
    Does(checks, name, "cleanup") && checks[First(checks, name)].path == path
  }

  function Min(a: nat, b: nat): nat { if a < b then a else b }

  /** What is done about a failure, given the failures before it. */
  function Reaction(checks: seq<Check>, earlier: seq<string>, name: string): seq<Deed> {
    if Does(checks, name, "alert") then [Alert(name)]
    else if Does(checks, name, "restart") then
      (if multiset(earlier)[name] < checks[First(checks, name)].maxRestarts then [Restart(name)] else [GiveUp(name)])
    else if Does(checks, name, "cleanup") then [Cleanup(checks[First(checks, name)].path)]
    else []
  }

  function Reactions(checks: seq<Check>, failed: seq<string>): seq<Deed> {
    if failed == [] then []
    else
      var k := |failed| - 1;
      Reactions(checks, failed[..k]) + Reaction(checks, failed[..k], failed[k])
  }

  /** The failures that are to clean up a path. */
  function CleanupsDue(checks: seq<Check>, failed: seq<string>, path: string): set<int> {
    set j | 0 <= j < |failed| && Cleans(checks, failed[j], path)
  }

  /** How often a thing is to be done about these failures: every failure of an alerting check is an alert,
      of a cleaning check a cleanup of its path, and of a restarting check a restart as long as they are
      allowed, then a giving-up. */
  function Due(checks: seq<Check>, failed: seq<string>, deed: Deed): int {
    match deed
    case Alert(n) => if Does(checks, n, "alert") then multiset(failed)[n] else 0
    case Restart(n) => Min(Allowed(checks, n), multiset(failed)[n])
    case GiveUp(n) =>
      if Does(checks, n, "restart") then multiset(failed)[n] - Min(Allowed(checks, n), multiset(failed)[n]) else 0
    case Cleanup(p) => |CleanupsDue(checks, failed, p)|
  }

  /** All that is due was done, and nothing else. */
  ghost predicate DealtWith(deeds: seq<Deed>, checks: seq<Check>, failed: seq<string>) {
    forall deed: Deed :: multiset(deeds)[deed] == Due(checks, failed, deed)
  }

  lemma NothingDue(checks: seq<Check>, deed: Deed)
    ensures Due(checks, [], deed) == 0
  {
    if deed.Cleanup? {
      assert CleanupsDue(checks, [], deed.path) == {};
    }
  }

  lemma OneMoreCleanup(checks: seq<Check>, failed: seq<string>, name: string, path: string)
    ensures |CleanupsDue(checks, failed + [name], path)|
         == |CleanupsDue(checks, failed, path)| + if Cleans(checks, name, path) then 1 else 0
  {
    var more := failed + [name];
    assert more[..|failed|] == failed;
    assert CleanupsDue(checks, more, path)
        == CleanupsDue(checks, failed, path) + if Cleans(checks, name, path) then {|failed|} else {};
  }

  lemma OneMoreDue(checks: seq<Check>, failed: seq<string>, name: string, deed: Deed)
    ensures Due(checks, failed + [name], deed) == Due(checks, failed, deed) + multiset(Reaction(checks, failed, name))[deed]
  {
    assert multiset(failed + [name]) == multiset(failed) + multiset{name};
    if deed.Cleanup? {
      OneMoreCleanup(checks, failed, name, deed.path);
    }
  }

  lemma TimesAdd(a: seq<Deed>, b: seq<Deed>, deed: Deed)
    ensures multiset(a + b)[deed] == multiset(a)[deed] + multiset(b)[deed]
  {
  }

  lemma {:induction false} ReactionsAreDue(checks: seq<Check>, failed: seq<string>, deed: Deed)
    ensures multiset(Reactions(checks, failed))[deed] == Due(checks, failed, deed)
  {
    if failed == [] {
      NothingDue(checks, deed);
    } else {
      var k := |failed| - 1;
      var rest, name := failed[..k], failed[k];
      assert failed == rest + [name];
      ReactionsAreDue(checks, rest, deed);
      OneMoreDue(checks, rest, name, deed);
      TimesAdd(Reactions(checks, rest), Reaction(checks, rest, name), deed);
      assert Reactions(checks, failed) == Reactions(checks, rest) + Reaction(checks, rest, name);
    }
  }

  /** Go reads a missing count as zero. */
  function CountIn(counts: map<string, int>, name: string): int { if name in counts then counts[name] else 0 }

  /** The counts are what these failures make them: as many, up to what is allowed. */
  ghost predicate Counted(counts: map<string, int>, checks: seq<Check>, failed: seq<string>) {
    forall n: string :: CountIn(counts, n) == Min(Allowed(checks, n), multiset(failed)[n])
  }

  /** What `handleFailure` does, by the count. */
  function Deeds(check: Check, count: int): seq<Deed> {
    if check.action == "alert" then [Alert(check.name)]
    else if check.action == "restart" then (if count >= check.maxRestarts then [GiveUp(check.name)] else [Restart(check.name)])
    else if check.action == "cleanup" then [Cleanup(check.path)]
    else []
  }

  function CountsAfter(counts: map<string, int>, check: Check): map<string, int> {
    if Deeds(check, CountIn(counts, check.name)) == [Restart(check.name)]
    then counts[check.name := CountIn(counts, check.name) + 1] else counts
  }

  /** Going by the count is going by the failures before. */
  lemma {:induction false} CountDecides(counts: map<string, int>, checks: seq<Check>, failed: seq<string>, name: string)
    requires Counted(counts, checks, failed) && First(checks, name) < |checks|
    ensures Deeds(checks[First(checks, name)], CountIn(counts, name)) == Reaction(checks, failed, name)
    ensures Counted(CountsAfter(counts, checks[First(checks, name)]), checks, failed + [name])
  {
    var after := CountsAfter(counts, checks[First(checks, name)]);
    assert multiset(failed + [name]) == multiset(failed) + multiset{name};
    assert CountIn(counts, name) == Min(Allowed(checks, name), multiset(failed)[name]);
    forall n: string
      ensures CountIn(after, n) == Min(Allowed(checks, n), multiset(failed + [name])[n])
    {
      assert CountIn(counts, n) == Min(Allowed(checks, n), multiset(failed)[n]);
    }
  }

  class Daemon {
    const checks: seq<Check>
    var restartCounts: map<string, int>
    ghost var deeds: seq<Deed>

    constructor (cfg: seq<Check>)
      ensures checks == cfg && restartCounts == map[] && deeds == []
    {
      checks := cfg;
      restartCounts := map[];
      deeds := [];
    }

    /** These failures have been reacted to, and the restarts counted. */
    ghost predicate Reacted(failed: seq<string>)
      reads this
    {
      deeds == Reactions(checks, failed) && Counted(restartCounts, checks, failed)
    }

    /** `handleFailure`. */
    method HandleFailure(check: Check)
      modifies this
      ensures deeds == old(deeds) + Deeds(check, old(CountIn(restartCounts, check.name)))
      ensures restartCounts == CountsAfter(old(restartCounts), check)
    {
      if check.action == "alert" {
        deeds := deeds + [Alert(check.name)];
      } else if check.action == "restart" {
        var count := CountIn(restartCounts, check.name);
        if count >= check.maxRestarts {
          deeds := deeds + [GiveUp(check.name)];
          return;
        }
        deeds := deeds + [Restart(check.name)];
        restartCounts := restartCounts[check.name := count + 1];
      } else if check.action == "cleanup" {
        deeds := deeds + [Cleanup(check.path)];
      } else {
        assert deeds == deeds + [];
      }
    }

    /** One failed result: the first check with its name decides. */
    method OneFailure(name: string, ghost failed: seq<string>)
      requires Reacted(failed) && exists i :: 0 <= i < |checks| && checks[i].name == name
      modifies this
      ensures Reacted(failed + [name])
    {
      var i := 0;
      while checks[i].name != name
        invariant 0 <= i < |checks| && forall j | 0 <= j < i :: checks[j].name != name
        invariant exists k :: i <= k < |checks| && checks[k].name == name
        decreases |checks| - i
      {
        i := i + 1;
      }
      assert First(checks, name) == i;
      CountDecides(restartCounts, checks, failed, name);
      HandleFailure(checks[i]);
      OneMoreReaction(checks, failed, name);
    }

    /** One result of a round. */
    method OneResult(name: string, status: Status, ghost failed: seq<string>) returns (ghost next: seq<string>)
      requires Reacted(failed) && exists i :: 0 <= i < |checks| && checks[i].name == name
      modifies this
      ensures next == (if status != Ok then failed + [name] else failed) && Reacted(next)
    {
      next := failed;
      if status != Ok {
        next := failed + [name];
        OneFailure(name, failed);
      }
    }

    /** One pass of the daemon's endless loop: run all checks, then deal with the failures. */
    method OneRound(round: Round, ghost failed: seq<string>)
      requires Reacted(failed) && |round| == |checks|
      modifies this
      ensures Reacted(failed + FailedIn(checks, round))
    {
      var i := 0;
      ghost var sofar := failed;
      assert sofar == failed + FailedIn(checks[..0], round[..0]);
      while i < |round|
        invariant 0 <= i <= |round| && sofar == failed + FailedIn(checks[..i], round[..i]) && Reacted(sofar)
      {
        OneMoreResult(checks, round, i, failed);
        sofar := OneResult(checks[i].name, round[i], sofar);
        i := i + 1;
      }
      assert checks[..i] == checks && round[..i] == round;
    }

    /** `watchAction`, stopped after any number of rounds. */
    method Watch(rounds: seq<Round>)
      requires restartCounts == map[] && deeds == [] && forall r | r in rounds :: |r| == |checks|
      modifies this
      ensures DealtWith(deeds, checks, Failed(checks, rounds)) && deeds == Reactions(checks, Failed(checks, rounds))
      ensures forall n: string :: CountIn(restartCounts, n) == multiset(deeds)[Restart(n)] <= Allowed(checks, n)
    {
      var i := 0;
      ghost var failed: seq<string> := [];
      while i < |rounds|
        invariant 0 <= i <= |rounds| && failed == Failed(checks, rounds[..i]) && Reacted(failed)
      {
        OneMoreRound(checks, rounds, i);
        OneRound(rounds[i], failed);
        failed := failed + FailedIn(checks, rounds[i]);
        i := i + 1;
      }
      assert rounds[..i] == rounds;
      AllIsDue(checks, failed);
    }
  }

  lemma {:induction false} AllIsDue(checks: seq<Check>, failed: seq<string>)
    ensures DealtWith(Reactions(checks, failed), checks, failed)
    ensures forall n: string :: multiset(Reactions(checks, failed))[Restart(n)] == Min(Allowed(checks, n), multiset(failed)[n])
  {
    forall deed: Deed
      ensures multiset(Reactions(checks, failed))[deed] == Due(checks, failed, deed)
    {
      ReactionsAreDue(checks, failed, deed);
    }
  }

  lemma {:induction false} OneMoreRound(checks: seq<Check>, rounds: seq<Round>, i: nat)
    requires i < |rounds| && forall r | r in rounds :: |r| == |checks|
    ensures Failed(checks, rounds[..i + 1]) == Failed(checks, rounds[..i]) + FailedIn(checks, rounds[i])
  {
    assert rounds[..i + 1][..i] == rounds[..i];
  }

  lemma {:induction false} OneMoreReaction(checks: seq<Check>, failed: seq<string>, name: string)
    ensures Reactions(checks, failed + [name]) == Reactions(checks, failed) + Reaction(checks, failed, name)
  {
    assert (failed + [name])[..|failed|] == failed;
  }

  lemma OneMoreResult(checks: seq<Check>, round: Round, i: nat, failed: seq<string>)
    requires |round| == |checks| && i < |checks|
    ensures failed + FailedIn(checks[..i + 1], round[..i + 1])
         == if round[i] != Ok then failed + FailedIn(checks[..i], round[..i]) + [checks[i].name]
            else failed + FailedIn(checks[..i], round[..i])
  {
    assert checks[..i + 1][..i] == checks[..i] && round[..i + 1][..i] == round[..i];
  }

  // ---------------------------------------------------------------- editing the list

  predicate HasCheck(checks: seq<Check>, name: string) {
    exists i :: 0 <= i < |checks| && checks[i].name == name
  }

  /** The checks with another name, in order. */
  function Without(checks: seq<Check>, name: string): seq<Check> {
    if checks == [] then []
    else
      var rest := Without(checks[..|checks| - 1], name);
      if checks[|checks| - 1].name == name then rest else rest + [checks[|checks| - 1]]
  }

  /** The list edit of `addAction`; false when the name is taken. */
  method Add(checks: seq<Check>, check: Check) returns (added: bool, next: seq<Check>)
    ensures added == !HasCheck(checks, check.name)
    ensures next == if added then checks + [check] else checks
  {
    var i := 0;
    while i < |checks|
      invariant 0 <= i <= |checks| && forall j | 0 <= j < i :: checks[j].name != check.name
    {
      if checks[i].name == check.name {
        return false, checks;
      }
      i := i + 1;
    }
    added, next := true, checks + [check];
  }

  /** The list edit of `removeAction`; false when there is nothing to remove. */
  method Remove(checks: seq<Check>, name: string) returns (found: bool, next: seq<Check>)
    ensures found == HasCheck(checks, name)
    ensures next == if found then Without(checks, name) else checks
  {
    found := false;
    next := [];
    var i := 0;
    while i < |checks|
      invariant 0 <= i <= |checks| && next == Without(checks[..i], name) && found == HasCheck(checks[..i], name)
    {
      assert checks[..i + 1][..i] == checks[..i];
      if checks[i].name == name {
        assert checks[..i + 1][i].name == name;
        found := true;
      } else {
        next := next + [checks[i]];
      }
      i := i + 1;
    }
    assert checks[..i] == checks;
    if !found {
      next := checks;
    }
  }

  /** Removing a name removes every check of that name, and no other. */
  lemma {:induction false} WithoutMeans(checks: seq<Check>, name: string, check: Check)
    ensures check in Without(checks, name) <==> check in checks && check.name != name
    ensures multiset(Without(checks, name))[check] == if check.name == name then 0 else multiset(checks)[check]
  {
    if checks == [] {
    } else {
      var n := |checks| - 1;
      WithoutMeans(checks[..n], name, check);
      assert checks == checks[..n] + [checks[n]];
    }
  }

  /** Removing what was just added gives the old list back. */
  lemma {:induction false} RemoveUndoesAdd(checks: seq<Check>, check: Check)
    requires !HasCheck(checks, check.name)
    ensures Without(checks + [check], check.name) == checks
  {
    assert (checks + [check])[..|checks|] == checks;
    WithoutNothing(checks, check.name);
  }

  lemma {:induction false} WithoutNothing(checks: seq<Check>, name: string)
    requires !HasCheck(checks, name)
    ensures Without(checks, name) == checks
  {
    if checks == [] {
      assert Without(checks, name) == [];
    } else {
      var n := |checks| - 1;
      var rest := checks[..n];
      assert forall j | 0 <= j < n :: rest[j] == checks[j];
      assert checks[n].name != name;
      WithoutNothing(rest, name);
      assert Without(checks, name) == rest + [checks[n]];
      assert checks == rest + [checks[n]];
    }
  }
}
