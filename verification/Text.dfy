/** String functions of the Go library that several components use. */
module Text {

  datatype Option<+T> = None | Some(value: T) {
    function GetOr(default: T): T { if Some? then value else default }
  }

  /** A random decimal number, as Go appends it to the names of temporary files and directories. */
  type Digits = s: string | s != "" && forall i | 0 <= i < |s| :: '0' <= s[i] <= '9' witness "0"

  /** An order in which Go may range over a map. */
  predicate IsOrder(order: seq<string>, m: map<string, string>) {
    && (forall i, j | 0 <= i < j < |order| :: order[i] != order[j])
    && (forall k | k in order :: k in m) && (forall k | k in m :: k in order)
  }

  /** The two maps agree on every name outside `names`. */
  predicate SameBut<V(==)>(a: map<string, V>, b: map<string, V>, names: set<string>) {
    forall n | n in a.Keys + b.Keys && n !in names :: n in a && n in b && a[n] == b[n]
  }

  /** A bound on the depth of paths. */
  ghost function MaxLength<T>(paths: set<seq<T>>): (depth: nat)
    ensures forall p | p in paths :: |p| <= depth
    decreases paths
  {
    if paths == {} then 0
    else
      var p :| p in paths;
      var rest := MaxLength(paths - {p});
      if |p| > rest then |p| else rest
  }

  predicate HasSuffix(s: string, suffix: string) {
    |suffix| <= |s| && s[|s| - |suffix|..] == suffix
  }

  predicate ContainsAt(s: string, sub: string, i: int) {
    0 <= i && i + |sub| <= |s| && s[i..i + |sub|] == sub
  }

  /** `strings.Contains`. */
  predicate Contains(s: string, sub: string) {
    exists i :: 0 <= i <= |s| && ContainsAt(s, sub, i)
  }

  /** Whatever is put around a text, it still contains what it contained. */
  lemma ContainsGrows(a: string, s: string, b: string, sub: string)
    requires Contains(s, sub)
    ensures Contains(a + s + b, sub)
  {
    var i :| 0 <= i <= |s| && ContainsAt(s, sub, i);
    assert (a + s + b)[|a| + i..|a| + i + |sub|] == sub;
    assert ContainsAt(a + s + b, sub, |a| + i);
  }

  /** `strings.IndexByte`, or the length of the text. */
  function IndexOf(s: string, c: char): (i: nat)
    ensures i <= |s| && c !in s[..i] && (i < |s| ==> s[i] == c) && (i == |s| <==> c !in s)
  {
    if s == "" then 0
    else if s[0] == c then 0
    else
      var j := IndexOf(s[1..], c);
      assert s[..1 + j] == [s[0]] + s[1..][..j];
      1 + j
  }

  lemma {:induction false} IndexOfAppend(a: string, b: string, c: char)
    requires c !in a
    ensures IndexOf(a + [c] + b, c) == |a|
  {
    var s := a + [c] + b;
    var i := IndexOf(s, c);
    assert s[|a|] == c && forall j | 0 <= j < |a| :: s[j] == a[j];
    assert forall k | |a| < k <= |s| :: s[|a|] in s[..k];
  }

  // ---------------------------------------------------------------- order

  /** Go's `<=` on strings. */
  predicate Leq(a: string, b: string) {
    a == "" || (b != "" && (a[0] < b[0] || (a[0] == b[0] && Leq(a[1..], b[1..]))))
  }

  lemma {:induction false} LeqTotal(a: string, b: string)
    ensures Leq(a, b) || Leq(b, a)
  {
    if a == "" || b == "" || a[0] != b[0] {
    } else {
      LeqTotal(a[1..], b[1..]);
    }
  }

  lemma {:induction false} LeqAntisymmetric(a: string, b: string)
    requires Leq(a, b) && Leq(b, a)
    ensures a == b
  {
    if a == "" || b == "" {
    } else {
      LeqAntisymmetric(a[1..], b[1..]);
      assert a == [a[0]] + a[1..] && b == [b[0]] + b[1..];
    }
  }

  lemma {:induction false} LeqTransitive(a: string, b: string, c: string)
    requires Leq(a, b) && Leq(b, c)
    ensures Leq(a, c)
  {
    if a == "" || a[0] < b[0] || b[0] < c[0] {
    } else {
      LeqTransitive(a[1..], b[1..], c[1..]);
    }
  }

  /** Two texts that agree in front compare by what follows. */
  lemma {:induction false} LeqPrefix(p: string, a: string, b: string)
    ensures Leq(p + a, p + b) <==> Leq(a, b)
  {
    if p == "" {
      assert p + a == a && p + b == b;
    } else {
      assert (p + a)[1..] == p[1..] + a && (p + b)[1..] == p[1..] + b;
      LeqPrefix(p[1..], a, b);
    }
  }

  /** Texts that begin with different fields of one width compare by those fields. */
  lemma {:induction false} LeqFields(p: string, q: string, a: string, b: string)
    requires |p| == |q| && p != q
    ensures Leq(p + a, q + b) <==> Leq(p, q)
  {
    assert (p + a)[1..] == p[1..] + a && (q + b)[1..] == q[1..] + b;
    if p[0] != q[0] {
    } else {
      assert p == [p[0]] + p[1..] && q == [q[0]] + q[1..];
      LeqFields(p[1..], q[1..], a, b);
    }
  }

  predicate Sorted(s: seq<string>) {
    forall i, j | 0 <= i < j < |s| :: Leq(s[i], s[j])
  }

  /** There is one sorted order: Go's `sort.Strings` has no choice. */
  /** The first of a sorted sequence is the least. */
  lemma {:induction false} FirstIsLeast(a: seq<string>, x: string)
    requires Sorted(a) && x in multiset(a)
    ensures Leq(a[0], x)
  {
    var i :| 0 <= i < |a| && a[i] == x;
    LeqReflexive(x);
  }

  lemma RestMultiset(a: seq<string>)
    requires a != []
    ensures multiset(a[1..]) == multiset(a) - multiset{a[0]} && a[0] in multiset(a)
  {
    assert a == [a[0]] + a[1..];
  }

  lemma {:induction false} SortedUnique(a: seq<string>, b: seq<string>)
    requires Sorted(a) && Sorted(b) && multiset(a) == multiset(b)
    ensures a == b
  {
    if a == [] {
      assert |multiset(b)| == 0;
    } else {
      assert |multiset(a)| == |multiset(b)|;
      RestMultiset(a);
      RestMultiset(b);
      FirstIsLeast(a, b[0]);
      FirstIsLeast(b, a[0]);
      LeqAntisymmetric(a[0], b[0]);
      SortedUnique(a[1..], b[1..]);
      assert a == [a[0]] + a[1..] && b == [b[0]] + b[1..];
    }
  }

  lemma {:induction false} LeqReflexive(a: string)
    ensures Leq(a, a)
  {
    if a == "" {
    } else {
      LeqReflexive(a[1..]);
    }
  }

  /** `sort.Strings`: the one sorted order of the same strings. */
  method SortStrings(s: seq<string>) returns (t: seq<string>)
    ensures Sorted(t) && multiset(t) == multiset(s)
  {
    t := [];
    for i := 0 to |s|
      invariant Sorted(t) && multiset(t) == multiset(s[..i])
    {
      assert s[..i + 1] == s[..i] + [s[i]];
      t := Insert(t, s[i]);
    }
    assert s[..|s|] == s;
  }

  method Insert(s: seq<string>, x: string) returns (t: seq<string>)
    requires Sorted(s)
    ensures Sorted(t) && multiset(t) == multiset(s) + multiset{x}
  {
    var i := |s|;
    while i > 0 && !Leq(s[i - 1], x)
      invariant 0 <= i <= |s|
      invariant forall j | i <= j < |s| :: Leq(x, s[j])
    {
      LeqTotal(s[i - 1], x);
      i := i - 1;
    }
    forall j | 0 <= j < i
      ensures Leq(s[j], x)
    {
      LeqReflexive(x);
      if j < i - 1 {
        LeqTransitive(s[j], s[i - 1], x);
      }
    }
    t := s[..i] + [x] + s[i..];
    assert s == s[..i] + s[i..];
  }
}
