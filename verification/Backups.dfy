/** Backup archives by name: naming, listing, retention and the choice of what to restore, from
    pkg/cli/backup/backup.go. */
module Backups {
  import opened Text

  // ---------------------------------------------------------------- names and times

  function Digit(n: nat): char
    requires n < 10
  {
    '0' + n as char
  }

  function Power10(w: nat): nat { if w == 0 then 1 else 10 * Power10(w - 1) }

  /** `n` in decimal, with leading zeros to width `w`. */
  function Pad(n: nat, w: nat): (s: string)
    ensures |s| == w
  {
    if w == 0 then "" else Pad(n / 10, w - 1) + [Digit(n % 10)]
  }

  lemma {:induction false} PadInjective(a: nat, b: nat, w: nat)
    requires a < Power10(w) && b < Power10(w) && Pad(a, w) == Pad(b, w)
    ensures a == b
  {
    if w == 0 {
    } else {
      var p, q := Pad(a / 10, w - 1), Pad(b / 10, w - 1);
      assert (p + [Digit(a % 10)])[..w - 1] == p && (q + [Digit(b % 10)])[..w - 1] == q;
      assert (p + [Digit(a % 10)])[w - 1] == (q + [Digit(b % 10)])[w - 1];
      PadInjective(a / 10, b / 10, w - 1);
    }
  }

  /** Numbers of one width compare as strings like numbers. */
  lemma {:induction false} PadOrder(a: nat, b: nat, w: nat)
    requires a < Power10(w) && b < Power10(w)
    ensures Leq(Pad(a, w), Pad(b, w)) <==> a <= b
  {
    if w == 0 {
    } else {
      var p, q := Pad(a / 10, w - 1), Pad(b / 10, w - 1);
      PadOrder(a / 10, b / 10, w - 1);
      if p == q {
        PadInjective(a / 10, b / 10, w - 1);
        LeqPrefix(p, [Digit(a % 10)], [Digit(b % 10)]);
        assert Leq([Digit(a % 10)], [Digit(b % 10)]) <==> a % 10 <= b % 10;
      } else {
        LeqFields(p, q, [Digit(a % 10)], [Digit(b % 10)]);
        assert a / 10 != b / 10;
      }
    }
  }

  /** A local time, to the second. */
  datatype Time = Time(year: nat, month: nat, day: nat, hour: nat, minute: nat, second: nat)

  predicate ValidTime(t: Time) {
    t.year < 10000 && t.month < 100 && t.day < 100 && t.hour < 100 && t.minute < 100 && t.second < 100
  }

  /** A number written with leading zeros, behind a separator. */
  datatype Field = Field(sep: string, value: nat, width: nat)

  /** The fields of the layout "2006-01-02_15-04-05". */
  function Fields(t: Time): seq<Field> {
    [Field("", t.year, 4), Field("-", t.month, 2), Field("-", t.day, 2),
     Field("_", t.hour, 2), Field("-", t.minute, 2), Field("-", t.second, 2)]
  }

  function Written(fields: seq<Field>): string {
    if fields == [] then "" else fields[0].sep + Pad(fields[0].value, fields[0].width) + Written(fields[1..])
  }

  /** The fields compare in order of significance. */
  predicate FieldsLeq(a: seq<Field>, b: seq<Field>)
    requires |a| == |b|
  {
    a == [] || a[0].value < b[0].value || (a[0].value == b[0].value && FieldsLeq(a[1..], b[1..]))
  }

  predicate SameShape(a: seq<Field>, b: seq<Field>) {
    |a| == |b| && forall i | 0 <= i < |a| ::
      a[i].sep == b[i].sep && a[i].width == b[i].width && a[i].value < Power10(a[i].width) && b[i].value < Power10(b[i].width)
  }

  /** Not later. */
  predicate NotLater(t: Time, u: Time) {
    || t.year < u.year
    || (t.year == u.year && (t.month < u.month
    || (t.month == u.month && (t.day < u.day
    || (t.day == u.day && (t.hour < u.hour
    || (t.hour == u.hour && (t.minute < u.minute
    || (t.minute == u.minute && t.second <= u.second)))))))))
  }

  lemma {:induction false} WrittenOrder(a: seq<Field>, b: seq<Field>, suffix: string)
    requires SameShape(a, b)
    ensures Leq(Written(a) + suffix, Written(b) + suffix) <==> FieldsLeq(a, b)
  {
    if a == [] {
      LeqReflexive(suffix);
      assert Written(a) + suffix == suffix == Written(b) + suffix;
    } else {
      var sep := a[0].sep;
      var x, y := Pad(a[0].value, a[0].width), Pad(b[0].value, b[0].width);
      var ra, rb := Written(a[1..]) + suffix, Written(b[1..]) + suffix;
      assert Written(a) + suffix == sep + (x + ra) && Written(b) + suffix == sep + (y + rb);
      LeqPrefix(sep, x + ra, y + rb);
      PadOrder(a[0].value, b[0].value, a[0].width);
      if x == y {
        PadInjective(a[0].value, b[0].value, a[0].width);
        LeqPrefix(x, ra, rb);
        WrittenOrder(a[1..], b[1..], suffix);
      } else {
        LeqFields(x, y, ra, rb);
      }
    }
  }

  /** The name of the archive made on `host` at `t`. */
  function BackupName(host: string, t: Time): string {
    "maculaos-" + host + "-" + Written(Fields(t)) + ".tar.gz"
  }

  /** For one host, the order of the names is the order of the times. */
  lemma NamesSortByTime(host: string, t: Time, u: Time)
    requires ValidTime(t) && ValidTime(u)
    ensures Leq(BackupName(host, t), BackupName(host, u)) <==> NotLater(t, u)
  {
    var front := "maculaos-" + host + "-";
    var a, b := Fields(t), Fields(u);
    assert Power10(2) == 100 by { assert Power10(1) == 10; }
    assert Power10(4) == 10000 by { assert Power10(3) == 1000; }
    assert SameShape(a, b);
    WrittenOrder(a, b, ".tar.gz");
    assert BackupName(host, t) == front + (Written(a) + ".tar.gz");
    assert BackupName(host, u) == front + (Written(b) + ".tar.gz");
    LeqPrefix(front, Written(a) + ".tar.gz", Written(b) + ".tar.gz");
    FieldsAreTimes(t, u);
  }

  /** The day of a backup as a user writes it. */
  function DayText(t: Time): string { Pad(t.year, 4) + "-" + Pad(t.month, 2) + "-" + Pad(t.day, 2) }

  /** A backup is listed as one, and found by its day. */
  lemma NameIsFound(host: string, t: Time)
    ensures HasSuffix(BackupName(host, t), ".tar.gz") && Contains(BackupName(host, t), DayText(t))
  {
    var rest := Fields(t)[3..];
    WrittenDay(t);
    var front, back := "maculaos-" + host + "-", Written(rest) + ".tar.gz";
    var name := BackupName(host, t);
    assert name == front + DayText(t) + back;
    assert name[|front|..|front| + |DayText(t)|] == DayText(t);
    assert ContainsAt(name, DayText(t), |front|);
    assert name[|name| - 7..] == ".tar.gz";
  }

  lemma WrittenDay(t: Time)
    ensures Written(Fields(t)) == DayText(t) + Written(Fields(t)[3..])
  {
    var f := Fields(t);
    assert f[1..][1..] == f[2..] && f[2..][1..] == f[3..];
    assert Written(f) == Pad(t.year, 4) + Written(f[1..]);
    assert Written(f[1..]) == "-" + Pad(t.month, 2) + Written(f[2..]);
    assert Written(f[2..]) == "-" + Pad(t.day, 2) + Written(f[3..]);
  }

  lemma FieldsAreTimes(t: Time, u: Time)
    ensures FieldsLeq(Fields(t), Fields(u)) <==> NotLater(t, u)
  {
    var a, b := Fields(t), Fields(u);
    forall i: nat | i < 6 {
      FieldsStep(a, b, i);
    }
    assert FieldsLeq(a[6..], b[6..]);
    assert FieldsLeq(a[3..], b[3..]) <==> t.hour < u.hour || (t.hour == u.hour && FieldsLeq(a[4..], b[4..]));
    assert a[0..] == a && b[0..] == b;
  }

  lemma FieldsStep(a: seq<Field>, b: seq<Field>, i: nat)
    requires |a| == |b| && i < |a|
    ensures FieldsLeq(a[i..], b[i..])
       <==> a[i].value < b[i].value || (a[i].value == b[i].value && FieldsLeq(a[i + 1..], b[i + 1..]))
  {
    assert a[i..][1..] == a[i + 1..] && b[i..][1..] == b[i + 1..];
  }

  // ---------------------------------------------------------------- the backup directory

  predicate IsListing(backups: seq<string>, files: set<string>) {
    && Sorted(backups)
    && (forall i, j | 0 <= i < j < |backups| :: backups[i] != backups[j])
    && (forall b | b in backups :: b in files && HasSuffix(b, ".tar.gz"))
    && (forall b | b in files && HasSuffix(b, ".tar.gz") :: b in backups)
  }

  class BackupDir {
    var files: set<string>

    constructor (initial: set<string>)
      ensures files == initial
    {
      files := initial;
    }

    /** `listLocalBackups`; the directory may be unreadable. */
    method List(mayFail: bool) returns (ok: bool, backups: seq<string>)
      ensures ok ==> IsListing(backups, files)
      ensures !ok ==> mayFail && backups == []
    {
      var unreadable := *;
      if mayFail && unreadable {
        return false, [];
      }
      ok := true;
      var found: seq<string> := [];
      var todo := files;
      while todo != {}
        invariant todo <= files
        invariant forall b | b in found :: b in files - todo && HasSuffix(b, ".tar.gz")
        invariant forall b | b in files - todo && HasSuffix(b, ".tar.gz") :: b in found
        invariant forall b | b in multiset(found) :: multiset(found)[b] == 1
        decreases todo
      {
        var name :| name in todo;
        todo := todo - {name};
        if HasSuffix(name, ".tar.gz") {
          assert name !in found;
          found := found + [name];
        }
      }
      backups := SortStrings(found);
      assert forall b :: b in backups <==> b in multiset(backups);
      assert forall b :: b in found <==> b in multiset(found);
      OnceMeansDistinct(backups);
    }

    /** `applyRetention`, with the configured number of backups to keep, if the configuration can be read.
        A removal that fails is logged. */
    method ApplyRetention(retention: Option<int>, mayFail: bool) returns (ok: bool, ghost listing: seq<string>)
      modifies this
      ensures files <= old(files) && (!ok ==> mayFail && files == old(files))
      ensures retention.None? || retention.value <= 0 ==> ok && files == old(files)
      ensures ok && retention.Some? && retention.value > 0 ==>
        var n := |listing|; var kept := if n < retention.value then n else retention.value;
        && IsListing(listing, old(files))
        && (forall f | f in old(files) && f !in listing[..n - kept] :: f in files)
        && (!mayFail ==> forall f | f in listing[..n - kept] :: f !in files)
    {
      listing := [];
      if retention.None? || retention.value <= 0 {
        return true, listing;
      }
      var backups;
      ok, backups := List(mayFail);
      if !ok {
        return;
      }
      listing := backups;
      ghost var gone := 0;
      while |backups| > retention.value
        invariant gone <= |listing| && backups == listing[gone..] && files <= old(files)
        invariant gone > 0 ==> |backups| >= retention.value
        invariant forall f | f in old(files) && f !in listing[..gone] :: f in files
        invariant !mayFail ==> forall f | f in listing[..gone] :: f !in files
      {
        var oldest := backups[0];
        assert listing[..gone + 1] == listing[..gone] + [oldest];
        var fails := *;
        if !(mayFail && fails) {
          files := files - {oldest};
        }
        backups := backups[1..];
        gone := gone + 1;
      }
    }
  }

  lemma {:induction false} OnceMeansDistinct(s: seq<string>)
    requires forall b | b in multiset(s) :: multiset(s)[b] == 1
    ensures forall i, j | 0 <= i < j < |s| :: s[i] != s[j]
  {
    if s == [] {
    } else {
      var n := |s| - 1;
      assert s == s[..n] + [s[n]];
      assert multiset(s) == multiset(s[..n]) + multiset{s[n]};
      assert forall b | b in multiset(s[..n]) :: b in multiset(s);
      OnceMeansDistinct(s[..n]);
      forall i | 0 <= i < n
        ensures s[i] != s[n]
      {
        assert s[..n][i] in multiset(s[..n]);
      }
    }
  }

  /** All backups were made by one host. */
  ghost predicate OneHost(backups: seq<string>, host: string, times: seq<Time>) {
    |times| == |backups| && forall i | 0 <= i < |backups| :: ValidTime(times[i]) && backups[i] == BackupName(host, times[i])
  }

  /** With one host's backups, those that `applyRetention` keeps are the newest, in order. */
  lemma KeptAreNewest(listing: seq<string>, files: set<string>, host: string, times: seq<Time>, i: nat, j: nat)
    requires IsListing(listing, files) && OneHost(listing, host, times) && i < j < |listing|
    ensures NotLater(times[i], times[j]) && times[i] != times[j]
  {
    NamesSortByTime(host, times[i], times[j]);
  }

  // ---------------------------------------------------------------- restoring

  datatype Request = Latest | OfDate(date: string) | Unspecified

  datatype Choice = Chosen(name: string) | NoBackups | NoneForDate | NotSpecified

  /** What `restoreAction` picks from the local backups, if they could be listed. */
  method Choose(listed: bool, backups: seq<string>, request: Request) returns (choice: Choice)
    ensures choice == NoBackups <==> !listed || backups == []
    ensures listed && backups != [] && request.Latest? ==> choice == Chosen(backups[|backups| - 1])
    ensures listed && backups != [] && request.OfDate? && request.date != "" ==>
      match choice
      case Chosen(name) => exists i :: 0 <= i < |backups| && name == backups[i] && Contains(name, request.date)
                             && forall j | 0 <= j < i :: !Contains(backups[j], request.date)
      case NoneForDate => forall j | 0 <= j < |backups| :: !Contains(backups[j], request.date)
      case _ => false
    ensures listed && backups != [] && (request.Unspecified? || (request.OfDate? && request.date == "")) ==> choice == NotSpecified
  {
    if !listed || backups == [] {
      return NoBackups;
    }
    if request.Latest? {
      return Chosen(backups[|backups| - 1]);
    }
    if request.OfDate? && request.date != "" {
      var i := 0;
      while i < |backups|
        invariant 0 <= i <= |backups| && forall j | 0 <= j < i :: !Contains(backups[j], request.date)
      {
        if Contains(backups[i], request.date) {
          return Chosen(backups[i]);
        }
        i := i + 1;
      }
      return NoneForDate;
    }
    choice := NotSpecified;
  }

  /** The latest backup is the newest one. For a date, the pick is the oldest of those whose name
      contains it: nothing later on that date is ever restored. */
  lemma ChoiceByTime(listing: seq<string>, files: set<string>, host: string, times: seq<Time>, i: nat, date: string)
    requires IsListing(listing, files) && OneHost(listing, host, times) && i < |listing|
    requires Contains(listing[i], date) && forall j | 0 <= j < i :: !Contains(listing[j], date)
    ensures forall j | 0 <= j < |listing| :: NotLater(times[j], times[|listing| - 1])
    ensures forall j | 0 <= j < |listing| && Contains(listing[j], date) :: NotLater(times[i], times[j])
  {
    forall j | 0 <= j < |listing|
      ensures NotLater(times[j], times[|listing| - 1])
      ensures i < j ==> NotLater(times[i], times[j])
    {
      if j < |listing| - 1 {
        KeptAreNewest(listing, files, host, times, j, |listing| - 1);
      }
      if i < j {
        KeptAreNewest(listing, files, host, times, i, j);
      }
    }
  }
}
