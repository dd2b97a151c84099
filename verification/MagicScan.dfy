/** Finding the file system image inside the running executable: `inFile` of pkg/enterchroot/enter.go. */
module MagicScan {

  const MAGIC := "_SQMAGIC_"

  /** `strings.ToLower` on ASCII. */
  function ToLower(s: string): string {
    seq(|s|, i requires 0 <= i < |s| => if 'A' <= s[i] <= 'Z' then s[i] - 'A' + 'a' else s[i])
  }

  /** What the scan looks for; the program itself only contains it in capitals. */
  const TEST := "_sqmagic_"

  type Pattern = p: string | p != "" witness "_"

  lemma TestIsLowered()
    ensures ToLower(MAGIC) == TEST
  {
    assert |ToLower(MAGIC)| == |TEST|;
    forall i | 0 <= i < |TEST|
      ensures ToLower(MAGIC)[i] == TEST[i]
    {
    }
  }

  /** The scanner after some bytes: it has returned an offset, or it has matched the first `found` bytes. */
  datatype Scan = Hit(offset: nat) | Going(found: nat)

  function Step(p: Pattern, scan: Scan, b: char, offset: nat): Scan
    requires scan.Going? ==> scan.found < |p|
  {
    match scan
    case Hit(_) => scan
    case Going(found) =>
      if b != p[found] then Going(0)
      else if found + 1 == |p| then Hit(offset + 1)
      else Going(found + 1)
  }

  /** The scanner after the first `n` bytes. */
  function After(p: Pattern, s: string, n: nat): (scan: Scan)
    requires n <= |s|
    ensures scan.Going? ==> scan.found < |p|
  {
    if n == 0 then Going(0) else Step(p, After(p, s, n - 1), s[n - 1], n - 1)
  }

  /** Somewhere in the bytes stands the whole of a text. */
  predicate StandsAt(t: string, s: string, i: nat) {
    i + |t| <= |s| && forall k | i <= k < i + |t| :: s[k] == t[k - i]
  }

  // ---------------------------------------------------------------- what an answer means

  /** The bytes matched so far are the last ones read. */
  lemma {:induction false} GoingMeans(p: Pattern, s: string, n: nat)
    requires n <= |s| && After(p, s, n).Going?
    ensures var found := After(p, s, n).found; found <= n && StandsAt(p[..found], s, n - found)
  {
    if n == 0 {
    } else {
      GoingMeans(p, s, n - 1);
    }
  }

  /** A hit is just past an occurrence, and it was the byte before it that completed the magic. */
  lemma {:induction false} HitMeans(p: Pattern, s: string, n: nat)
    requires n <= |s| && After(p, s, n).Hit?
    ensures var offset := After(p, s, n).offset;
      && |p| <= offset <= n && StandsAt(p, s, offset - |p|)
      && After(p, s, offset) == Hit(offset) && After(p, s, offset - 1).Going?
  {
    if After(p, s, n - 1).Hit? {
      HitMeans(p, s, n - 1);
    } else {
      GoingMeans(p, s, n - 1);
    }
  }

  /** After a hit nothing changes the answer. */
  lemma {:induction false} HitStays(p: Pattern, s: string, m: nat, n: nat)
    requires m <= n <= |s| && After(p, s, m).Hit?
    ensures After(p, s, n) == After(p, s, m)
  {
    if m == n {
    } else {
      HitStays(p, s, m, n - 1);
    }
  }

  /** Only the bytes read matter. */
  lemma {:induction false} SameBytes(p: Pattern, s: string, t: string, n: nat)
    requires n <= |s| && n <= |t| && s[..n] == t[..n]
    ensures After(p, s, n) == After(p, t, n)
  {
    if n == 0 {
    } else {
      assert s[..n][n - 1] == t[..n][n - 1];
      assert s[..n - 1] == s[..n][..n - 1] == t[..n - 1];
      SameBytes(p, s, t, n - 1);
    }
  }

  /** From a fresh start the scanner follows whatever stands there of the magic. */
  lemma {:induction false} FollowFresh(p: Pattern, s: string, i: nat, k: nat)
    requires k < |p| && StandsAt(p[..k], s, i) && After(p, s, i) == Going(0)
    ensures After(p, s, i + k) == Going(k)
  {
    if k == 0 {
    } else {
      assert p[..k][..k - 1] == p[..k - 1];
      FollowFresh(p, s, i, k - 1);
      assert s[i + k - 1] == p[..k][k - 1];
    }
  }

  /** What has been matched so far began where the scanner had nothing matched. */
  lemma {:induction false} BeganFresh(p: Pattern, s: string, n: nat)
    requires n <= |s| && After(p, s, n).Going?
    ensures var found := After(p, s, n).found; found <= n && After(p, s, n - found) == Going(0)
  {
    if n == 0 || After(p, s, n).found == 0 {
    } else {
      BeganFresh(p, s, n - 1);
    }
  }

  /** No match is under way before byte `i`. It depends on the bytes alone: wherever a beginning of the
      magic ends just before `i`, another match was under way when it began. */
  predicate Clear(p: Pattern, s: string, i: nat)
    decreases i
  {
    forall k: nat | 0 < k < |p| && k <= i && StandsAt(p[..k], s, i - k) :: !Clear(p, s, i - k)
  }

  /** The scanner has nothing matched exactly where the bytes are clear. */
  lemma {:induction false} FreshIsClear(p: Pattern, s: string, i: nat)
    requires i <= |s| && After(p, s, i).Going?
    ensures After(p, s, i) == Going(0) <==> Clear(p, s, i)
    decreases i
  {
    var found := After(p, s, i).found;
    if found > 0 {
      GoingMeans(p, s, i);
      BeganFresh(p, s, i);
      FreshIsClear(p, s, i - found);
    } else {
      forall k: nat | 0 < k < |p| && k <= i && StandsAt(p[..k], s, i - k)
        ensures !Clear(p, s, i - k)
      {
        if After(p, s, i - k).Hit? {
          HitStays(p, s, i - k, i);
        }
        FreshIsClear(p, s, i - k);
        if After(p, s, i - k) == Going(0) {
          FollowFresh(p, s, i - k, k);
        }
      }
    }
  }

  /** An occurrence the scanner gets to is found exactly when the bytes before it are clear. */
  lemma FoundExactly(p: Pattern, s: string, i: nat)
    requires StandsAt(p, s, i) && After(p, s, i).Going?
    ensures After(p, s, i + |p|) == Hit(i + |p|) <==> Clear(p, s, i)
  {
    var n := i + |p|;
    FreshIsClear(p, s, i);
    if After(p, s, i) == Going(0) {
      FollowFresh(p, s, i, |p| - 1);
    }
    if After(p, s, n) == Hit(n) {
      HitMeans(p, s, n);
      BeganFresh(p, s, n - 1);
    }
  }

  /** The magic stands at `i`, with nothing in the way of finding it. */
  predicate Findable(p: Pattern, s: string, i: nat) { StandsAt(p, s, i) && Clear(p, s, i) }

  /** The answer, in terms of the bytes alone: the end of the first findable occurrence. */
  lemma {:induction false} FirstFindable(p: Pattern, s: string, i: nat)
    requires Findable(p, s, i)
    ensures After(p, s, |s|).Hit? && After(p, s, |s|).offset <= i + |p|
  {
    if After(p, s, i).Going? {
      FoundExactly(p, s, i);
      HitStays(p, s, i + |p|, |s|);
    } else {
      HitMeans(p, s, i);
      HitStays(p, s, i, |s|);
    }
  }

  lemma {:induction false} HitIsFindable(p: Pattern, s: string, i: nat)
    requires After(p, s, |s|) == Hit(i + |p|)
    ensures Findable(p, s, i)
  {
    HitMeans(p, s, |s|);
    assert StandsAt(p, s, i);
    if After(p, s, i).Hit? {
      HitStays(p, s, i, i + |p| - 1);
      assert false;
    }
    FoundExactly(p, s, i);
  }

  /** No non-empty proper beginning of the magic ends just before `i`. */
  predicate Unobstructed(p: Pattern, s: string, i: nat) {
    forall k: nat | 0 < k < |p| && k <= i :: !StandsAt(p[..k], s, i - k)
  }

  /** An unobstructed occurrence is found, it or an earlier one. */
  lemma {:induction false} UnobstructedIsFound(p: Pattern, s: string, i: nat)
    requires StandsAt(p, s, i) && Unobstructed(p, s, i)
    ensures After(p, s, |s|).Hit? && After(p, s, |s|).offset <= i + |p|
  {
    FirstFindable(p, s, i);
  }

  /** An obstructed occurrence can be missed: here the magic follows one underscore. */
  lemma ObstructedIsMissed()
    ensures var s := "_" + TEST; StandsAt(TEST, s, 1) && !Clear(TEST, s, 1) && After(TEST, s, |s|).Going?
  {
    var s := "_" + TEST;
    assert After(TEST, s, 1) == Going(1);
    assert After(TEST, s, 2) == Going(0) && After(TEST, s, 3) == Going(0) && After(TEST, s, 4) == Going(0);
    assert After(TEST, s, 5) == Going(0) && After(TEST, s, 6) == Going(0) && After(TEST, s, 7) == Going(0);
    assert After(TEST, s, 8) == Going(0) && After(TEST, s, 9) == Going(0);
    FreshIsClear(TEST, s, 1);
  }

  /** And it can be found: here it follows two. */
  lemma ObstructedIsFound()
    ensures var s := "__" + TEST;
      StandsAt(TEST, s, 2) && !Unobstructed(TEST, s, 2) && Clear(TEST, s, 2) && After(TEST, s, |s|) == Hit(|s|)
  {
    var s := "__" + TEST;
    assert After(TEST, s, 1) == Going(1);
    assert After(TEST, s, 2) == Going(0);
    FreshIsClear(TEST, s, 2);
    assert StandsAt(TEST[..1], s, 1);
    assert TEST == s[2..];
    FoundExactly(TEST, s, 2);
  }

  // ---------------------------------------------------------------- reading in pieces

  datatype ReadError = NoError | Eof | Other

  /** One call of `Read`. */
  datatype Read = Read(data: string, err: ReadError)

  datatype Answer = Found(offset: nat) | NotFound | Failed

  function ToAnswer(scan: Scan): Answer {
    match scan case Hit(offset) => Found(offset) case Going(_) => NotFound
  }

  /** The scanner after all the bytes. */
  function Whole(s: string): (scan: Scan)
    ensures scan.Going? ==> scan.found < |TEST|
  {
    After(TEST, s, |s|)
  }

  lemma WholeHitStays(s: string, t: string)
    requires Whole(s).Hit?
    ensures Whole(s + t) == Whole(s)
  {
    SameBytes(TEST, s, s + t, |s|);
    HitStays(TEST, s + t, |s|, |s + t|);
  }

  lemma WholeNext(s: string, b: char)
    ensures Whole(s + [b]) == Step(TEST, Whole(s), b, |s|)
  {
    SameBytes(TEST, s, s + [b], |s|);
  }

  /** The answer after the bytes `s`, given the reads to come. No more reads means the end of the file. */
  function Answered(calls: seq<Read>, s: string): Answer {
    if Whole(s).Hit? then ToAnswer(Whole(s))
    else if calls == [] || (calls[0].err == Eof && calls[0].data == "") then NotFound
    else if calls[0].err != NoError then Failed
    else Answered(calls[1..], s + calls[0].data)
  }

  /** The inner loop, over the bytes of one read. */
  method ScanChunk(data: string, offset: nat, found: nat, ghost s: string) returns (scan: Scan, next: nat)
    requires offset == |s| && Whole(s) == Going(found)
    ensures scan == Whole(s + data) && (scan.Going? ==> next == offset + |data|)
  {
    var k: nat := found;
    var j := 0;
    next := offset;
    assert s + data[..0] == s;
    while j < |data|
      invariant 0 <= j <= |data| && next == |s| + j && k < |TEST| && Whole(s + data[..j]) == Going(k)
    {
      var b := data[j];
      WholeNext(s + data[..j], b);
      assert s + data[..j] + [b] == s + data[..j + 1];
      if b == TEST[k] {
        k := k + 1;
        if k == |TEST| {
          WholeHitStays(s + data[..j + 1], data[j + 1..]);
          assert s + data[..j + 1] + data[j + 1..] == s + data;
          return Hit(next + 1), next;
        }
      } else {
        k := 0;
      }
      next := next + 1;
      j := j + 1;
    }
    assert data[..j] == data;
    scan := Going(k);
  }

  /** The answer is the end of the first findable occurrence, or that there is none. */
  ghost predicate Answers(s: string, answer: Answer) {
    match answer
    case Found(offset) =>
      && |TEST| <= offset && Findable(TEST, s, offset - |TEST|)
      && forall i: nat | Findable(TEST, s, i) :: offset <= i + |TEST|
    case NotFound => forall i: nat :: !Findable(TEST, s, i)
    case Failed => false
  }

  /** The first `n` reads went well, and no more did: there are none, or the next one reports something. */
  predicate WentWell(calls: seq<Read>, n: nat) {
    && n <= |calls| && (forall i | 0 <= i < n :: calls[i].err == NoError)
    && (n < |calls| ==> calls[n].err != NoError)
  }

  /** After them the file has ended. */
  predicate EndsAfter(calls: seq<Read>, n: nat)
    requires n <= |calls|
  {
    n < |calls| ==> calls[n] == Read("", Eof)
  }

  /** At the end of the file the answer is that of the bytes read; at any other report it is so when the
      bytes before it hold what is looked for, and otherwise a failure. */
  ghost predicate IsAnswer(calls: seq<Read>, n: nat, answer: Answer)
    requires n <= |calls|
  {
    var bytes := Joined(calls[..n]);
    if EndsAfter(calls, n) || answer.Found? then Answers(bytes, answer)
    else answer.Failed? && Answers(bytes, NotFound)
  }

  /** `inFile`. */
  method InFile(calls: seq<Read>) returns (answer: Answer)
    ensures answer == Answered(calls, "")
    ensures forall n: nat | WentWell(calls, n) :: IsAnswer(calls, n, answer)
  {
    forall n: nat | WentWell(calls, n)
      ensures IsAnswer(calls, n, Answered(calls, ""))
    {
      AnswerMeans(calls, n);
    }
    var offset: nat, found: nat := 0, 0;
    ghost var s := "";
    var i := 0;
    while i < |calls|
      invariant 0 <= i <= |calls| && offset == |s| && Whole(s) == Going(found)
      invariant Answered(calls, "") == Answered(calls[i..], s)
    {
      var read := calls[i];
      if read.err == Eof && read.data == "" {
        return NotFound;
      }
      if read.err != NoError {
        return Failed;
      }
      assert calls[i..][1..] == calls[i + 1..];
      var scan;
      scan, offset := ScanChunk(read.data, offset, found, s);
      if scan.Hit? {
        return Found(scan.offset);
      }
      found := scan.found;
      s := s + read.data;
      i := i + 1;
    }
    answer := NotFound;
  }

  function Joined(calls: seq<Read>): string {
    if calls == [] then "" else calls[0].data + Joined(calls[1..])
  }

  /** However the file is split into reads, and however they end, the answer is that of the bytes read
      before the first report. */
  lemma {:induction false} SplitDoesNotMatter(calls: seq<Read>, s: string, n: nat)
    requires WentWell(calls, n)
    ensures var scan := Whole(s + Joined(calls[..n]));
      Answered(calls, s) == if scan.Going? && !EndsAfter(calls, n) then Failed else ToAnswer(scan)
  {
    if Whole(s).Hit? {
      WholeHitStays(s, Joined(calls[..n]));
    } else if n == 0 {
      assert s + Joined(calls[..n]) == s;
    } else {
      var rest := calls[1..];
      assert WentWell(rest, n - 1) && (EndsAfter(rest, n - 1) <==> EndsAfter(calls, n));
      SplitDoesNotMatter(rest, s + calls[0].data, n - 1);
      assert calls[..n][1..] == rest[..n - 1];
      assert s + calls[0].data + Joined(rest[..n - 1]) == s + Joined(calls[..n]);
    }
  }

  /** There always are such reads. */
  lemma {:induction false} SomeWentWell(calls: seq<Read>) returns (n: nat)
    ensures WentWell(calls, n)
  {
    if calls == [] || calls[0].err != NoError {
      n := 0;
    } else {
      var m := SomeWentWell(calls[1..]);
      n := m + 1;
      assert forall i | 0 < i < n :: calls[i] == calls[1..][i - 1];
    }
  }

  lemma {:induction false} AnswerMeans(calls: seq<Read>, n: nat)
    requires WentWell(calls, n)
    ensures IsAnswer(calls, n, Answered(calls, ""))
  {
    var bytes := Joined(calls[..n]);
    SplitDoesNotMatter(calls, "", n);
    assert "" + bytes == bytes;
    WholeMeans(bytes);
  }

  lemma WholeMeans(s: string)
    ensures Answers(s, ToAnswer(Whole(s)))
  {
    if Whole(s).Hit? {
      HitMeans(TEST, s, |s|);
      HitIsFindable(TEST, s, Whole(s).offset - |TEST|);
    }
    forall i: nat | Findable(TEST, s, i)
      ensures Whole(s).Hit? && Whole(s).offset <= i + |TEST|
    {
      FirstFindable(TEST, s, i);
    }
  }
}
