/** `toYAMLKeys` of pkg/config/write.go: it renames the keys of a nested map while it ranges over it. */
module YamlKeys {

  datatype Value = Leaf(text: string) | Sub(entries: Entries)

  type Entries = map<string, Value>

  type Renaming = string -> string

  /** `convert.ToYAMLKey` is taken to leave its own results alone. */
  ghost predicate Idempotent(f: Renaming) { forall s {:trigger f(f(s))} :: f(f(s)) == f(s) }

  /** No two keys of one map get the same new name. */
  predicate Injective(m: Entries, f: Renaming) {
    forall k, l {:trigger f(k), f(l)} | k in m && l in m && f(k) == f(l) :: k == l
  }

  /** No collision in any map of the tree. */
  predicate NoCollision(v: Value, f: Renaming) {
    match v
    case Leaf(_) => true
    case Sub(entries) => Injective(entries, f) && forall k | k in entries :: NoCollision(entries[k], f)
  }

  /** The same values under new keys. */
  function Rekeyed(m: Entries, f: Renaming): Entries
    requires Injective(m, f)
  {
    map k | k in m :: f(k) := m[k]
  }

  /** The tree with all keys renamed, at every level. */
  function Renamed(v: Value, f: Renaming): Value
    requires NoCollision(v, f)
  {
    match v
    case Leaf(_) => v
    case Sub(entries) => Sub(Rekeyed(map k | k in entries :: Renamed(entries[k], f), f))
  }

  /** The values renamed, the keys not yet. */
  function Inner(m: Entries, f: Renaming): Entries
    requires NoCollision(Sub(m), f)
  {
    map k | k in m :: Renamed(m[k], f)
  }

  lemma RekeyedAt(m: Entries, f: Renaming, k: string)
    requires Injective(m, f) && k in m
    ensures f(k) in Rekeyed(m, f) && Rekeyed(m, f)[f(k)] == m[k]
  {
  }

  lemma Origin(m: Entries, f: Renaming, j: string) returns (k: string)
    requires Injective(m, f) && j in Rekeyed(m, f)
    ensures k in m && f(k) == j
  {
    k :| k in m && f(k) == j;
  }

  lemma RekeyedGrows(m: Entries, f: Renaming, k: string, v: Value)
    requires Injective(m, f) && Injective(m[k := v], f) && k !in m
    ensures Rekeyed(m[k := v], f) == Rekeyed(m, f)[f(k) := v]
  {
    var a, b := Rekeyed(m, f)[f(k) := v], Rekeyed(m[k := v], f);
    RekeyedAt(m[k := v], f, k);
    forall j | j in a && j != f(k)
      ensures j in b && a[j] == b[j]
    {
      var l := Origin(m, f, j);
      RekeyedAt(m, f, l);
      RekeyedAt(m[k := v], f, l);
    }
    forall j | j in b
      ensures j in a
    {
      var l := Origin(m[k := v], f, j);
      if l != k {
        RekeyedAt(m, f, l);
      }
    }
  }

  /** A map whose keys are all new names already. */
  lemma RekeyedFixed(m: Entries, f: Renaming)
    requires forall k | k in m :: f(k) == k
    ensures Injective(m, f) && Rekeyed(m, f) == m
  {
    forall j | j in Rekeyed(m, f)
      ensures j in m && m[j] == Rekeyed(m, f)[j]
    {
      var k := Origin(m, f, j);
      RekeyedAt(m, f, k);
    }
    forall k | k in m
      ensures k in Rekeyed(m, f)
    {
      RekeyedAt(m, f, k);
    }
  }

  lemma RenamedSub(m: Entries, f: Renaming, j: string) returns (k: string)
    requires NoCollision(Sub(m), f) && j in Renamed(Sub(m), f).entries
    ensures k in m && f(k) == j && Renamed(Sub(m), f).entries[j] == Renamed(m[k], f)
  {
    k := Origin(Inner(m, f), f, j);
    RekeyedAt(Inner(m, f), f, k);
  }

  /** Renaming a renamed tree changes nothing. */
  lemma {:induction false} RenamedTwice(v: Value, f: Renaming)
    requires Idempotent(f) && NoCollision(v, f)
    ensures NoCollision(Renamed(v, f), f) && Renamed(Renamed(v, f), f) == Renamed(v, f)
  {
    if v.Leaf? {
    } else {
      var r := Renamed(v, f).entries;
      forall j | j in r
        ensures f(j) == j && NoCollision(r[j], f) && Renamed(r[j], f) == r[j]
      {
        var k := RenamedSub(v.entries, f, j);
        assert f(f(k)) == f(k);
        RenamedTwice(v.entries[k], f);
      }
      RenamedFixed(r, f);
    }
  }

  lemma RenamedFixed(r: Entries, f: Renaming)
    requires forall j | j in r :: f(j) == j && NoCollision(r[j], f) && Renamed(r[j], f) == r[j]
    ensures NoCollision(Sub(r), f) && Renamed(Sub(r), f) == Sub(r)
  {
    RekeyedFixed(r, f);
    assert Inner(r, f) == r;
  }

  // ---------------------------------------------------------------- nothing is lost

  predicate LeafAt(v: Value, path: seq<string>, text: string) {
    match v
    case Leaf(t) => path == [] && t == text
    case Sub(entries) => path != [] && path[0] in entries && LeafAt(entries[path[0]], path[1..], text)
  }

  function RenamedPath(path: seq<string>, f: Renaming): seq<string> {
    seq(|path|, i requires 0 <= i < |path| => f(path[i]))
  }

  /** Every value is still there, under the renamed path. */
  lemma {:induction false} LeafKept(v: Value, f: Renaming, path: seq<string>, text: string)
    requires NoCollision(v, f) && LeafAt(v, path, text)
    ensures LeafAt(Renamed(v, f), RenamedPath(path, f), text)
  {
    if v.Leaf? {
    } else {
      RekeyedAt(Inner(v.entries, f), f, path[0]);
      LeafKept(v.entries[path[0]], f, path[1..], text);
      assert RenamedPath(path, f)[1..] == RenamedPath(path[1..], f);
    }
  }

  /** No value is new: each comes from a path of the old tree. */
  lemma {:induction false} LeafComesFrom(v: Value, f: Renaming, path: seq<string>, text: string) returns (from: seq<string>)
    requires NoCollision(v, f) && LeafAt(Renamed(v, f), path, text)
    ensures LeafAt(v, from, text) && RenamedPath(from, f) == path
    decreases v
  {
    if v.Leaf? {
      from := [];
    } else {
      var k := RenamedSub(v.entries, f, path[0]);
      var rest := LeafComesFrom(v.entries[k], f, path[1..], text);
      from := [k] + rest;
      assert from[1..] == rest;
      assert RenamedPath(from, f) == [f(k)] + RenamedPath(rest, f);
    }
  }

  /** And two values never end up under one path. */
  lemma {:induction false} PathsStayApart(v: Value, f: Renaming, p: seq<string>, q: seq<string>, s: string, t: string)
    requires NoCollision(v, f) && LeafAt(v, p, s) && LeafAt(v, q, t) && RenamedPath(p, f) == RenamedPath(q, f)
    ensures p == q && s == t
  {
    if v.Leaf? {
    } else {
      assert |p| == |RenamedPath(p, f)| == |q|;
      assert f(p[0]) == RenamedPath(p, f)[0] == RenamedPath(q, f)[0] == f(q[0]);
      assert RenamedPath(p[1..], f) == RenamedPath(p, f)[1..] == RenamedPath(q[1..], f);
      PathsStayApart(v.entries[p[0]], f, p[1..], q[1..], s, t);
      assert p == [p[0]] + p[1..] && q == [q[0]] + q[1..];
    }
  }

  // ---------------------------------------------------------------- the loop

  /** The tree is at most `depth` maps deep. */
  predicate Within(v: Value, depth: nat) {
    v.Leaf? || (depth > 0 && forall k | k in v.entries :: Within(v.entries[k], depth - 1))
  }

  lemma {:induction false} WithinMore(v: Value, a: nat, b: nat)
    requires Within(v, a) && a <= b
    ensures Within(v, b)
  {
    if v.Leaf? {
    } else {
      forall k | k in v.entries
        ensures Within(v.entries[k], b - 1)
      {
        WithinMore(v.entries[k], a - 1, b - 1);
      }
    }
  }

  /** Every tree has a depth. */
  lemma {:induction false} DepthOf(v: Value) returns (depth: nat)
    ensures Within(v, depth)
  {
    depth := 0;
    if v.Leaf? {
    } else {
      var todo := v.entries.Keys;
      while todo != {}
        invariant todo <= v.entries.Keys
        invariant forall k | k in v.entries.Keys - todo :: Within(v.entries[k], depth)
        decreases todo
      {
        var k :| k in todo;
        var d := DepthOf(v.entries[k]);
        var most := if d > depth then d else depth;
        WithinMore(v.entries[k], d, most);
        forall j | j in v.entries.Keys - todo
          ensures Within(v.entries[j], most)
        {
          WithinMore(v.entries[j], depth, most);
        }
        todo, depth := todo - {k}, most;
      }
      assert v.entries.Keys - todo == v.entries.Keys;
      depth := depth + 1;
    }
  }

  lemma {:induction false} RenamedWithin(v: Value, f: Renaming, depth: nat)
    requires NoCollision(v, f) && Within(v, depth)
    ensures Within(Renamed(v, f), depth)
  {
    if v.Leaf? {
    } else {
      var r := Renamed(v, f).entries;
      forall j | j in r
        ensures Within(r[j], depth - 1)
      {
        var k := RenamedSub(v.entries, f, j);
        RenamedWithin(v.entries[k], f, depth - 1);
      }
    }
  }

  /** The renamed values of the entries already visited; `r` is what all of them become. */
  predicate Part(part: Entries, r: Entries, f: Renaming) {
    Injective(part, f) && forall k | k in part :: k in r && part[k] == r[k]
  }

  /** The map in the middle of the loop. */
  function Halfway(m: Entries, part: Entries, f: Renaming): Entries
    requires Injective(part, f)
  {
    (m - part.Keys) + Rekeyed(part, f)
  }

  lemma NoClash(m: Entries, part: Entries, f: Renaming, k: string)
    requires Idempotent(f) && Injective(m, f) && Injective(part, f) && part.Keys <= m.Keys && k in m && k !in part
    ensures k !in Rekeyed(part, f)
    ensures f(k) !in m || f(k) == k
  {
    assert f(f(k)) == f(k);
    if k in Rekeyed(part, f) {
      var l := Origin(part, f, k);
      assert false;
    }
  }

  /** One entry's turn. */
  lemma RenameOne(m: Entries, r: Entries, part: Entries, f: Renaming, k: string)
    requires Idempotent(f) && Injective(m, f) && m.Keys == r.Keys && Part(part, r, f) && k in m && k !in part
    ensures k in Halfway(m, part, f) && Halfway(m, part, f)[k] == m[k]
    ensures var next := part[k := r[k]];
      Part(next, r, f) && Halfway(m, next, f) == (Halfway(m, part, f) - {k})[f(k) := r[k]]
  {
    var next := part[k := r[k]];
    assert forall l | l in next :: l in m;
    assert Injective(next, f);
    NoClash(m, part, f, k);
    RekeyedGrows(part, f, k, r[k]);
    TurnTaken(m, part.Keys, Rekeyed(part, f), k, f(k), r[k]);
    assert next.Keys == part.Keys + {k};
  }

  lemma TurnTaken(m: Entries, done: set<string>, r: Entries, k: string, newK: string, v: Value)
    requires k !in r && (newK !in m || newK == k)
    ensures (m - (done + {k})) + r[newK := v] == (((m - done) + r) - {k})[newK := v]
  {
  }

  lemma RekeyedNothing(m: Entries, f: Renaming)
    requires m.Keys == {} && Injective(m, f)
    ensures Rekeyed(m, f).Keys == {}
  {
    if j :| j in Rekeyed(m, f) {
      var k := Origin(m, f, j);
      assert false;
    }
  }

  lemma HalfwayNothing(m: Entries, none: Entries, r: Entries)
    requires none.Keys == {} && r.Keys == {}
    ensures (m - none.Keys) + r == m
  {
  }

  lemma NothingVisited(m: Entries, f: Renaming)
    ensures Halfway(m, map[], f) == m
  {
    RekeyedNothing(map[], f);
    HalfwayNothing(m, map[], Rekeyed(map[], f));
  }

  lemma AllVisited(m: Entries, r: Entries, part: Entries, f: Renaming)
    requires Part(part, r, f) && part.Keys == m.Keys == r.Keys
    ensures part == r && Halfway(m, part, f) == Rekeyed(r, f)
  {
    assert part == r;
    assert m - part.Keys == map[];
  }

  /** An entry made by the loop is not changed when the loop gets to it. */
  lemma MadeEntry(m: Entries, part: Entries, f: Renaming, l: string)
    requires Idempotent(f) && NoCollision(Sub(m), f) && Part(part, Inner(m, f), f) && l in part
    ensures f(l) in Halfway(m, part, f) && f(f(l)) == f(l)
    ensures var v := Halfway(m, part, f)[f(l)]; v == Renamed(m[l], f) && NoCollision(v, f) && Renamed(v, f) == v
  {
    RekeyedAt(part, f, l);
    RenamedTwice(m[l], f);
  }

  /** The names of the entries the loop has made so far. */
  function Made(part: Entries, f: Renaming): set<string> { set k | k in part :: f(k) }

  lemma MadeGrows(part: Entries, f: Renaming, k: string, v: Value)
    ensures Made(part[k := v], f) == Made(part, f) + {f(k)}
  {
    assert k in part[k := v];
    forall l | l in part
      ensures f(l) in Made(part[k := v], f)
    {
      assert l in part[k := v];
    }
  }

  lemma OneLess(all: set<string>, part: Entries, pending: set<string>, k: string, v: Value)
    requires part.Keys !! pending && part.Keys + pending == all && k in pending
    ensures part[k := v].Keys !! (pending - {k}) && part[k := v].Keys + (pending - {k}) == all
  {
    assert part[k := v].Keys == part.Keys + {k};
  }

  lemma RenamedIsRekeyed(m: Entries, f: Renaming)
    requires NoCollision(Sub(m), f)
    ensures Inner(m, f).Keys == m.Keys && Injective(Inner(m, f), f)
    ensures Renamed(Sub(m), f) == Sub(Rekeyed(Inner(m, f), f))
  {
  }

  /** `toYAMLKeys`. */
  method ToYamlKeys(m: Entries, f: Renaming, ghost depth: nat) returns (data: Entries)
    requires Idempotent(f) && NoCollision(Sub(m), f) && Within(Sub(m), depth)
    ensures Sub(data) == Renamed(Sub(m), f)
    decreases depth, 3
  {
    RenamedIsRekeyed(m, f);
    data := RangeOver(m, Inner(m, f), f, depth);
  }

  /** The loop, for any order in which Go may range over the map: an entry made during the loop may be
      visited, or not. */
  method RangeOver(m: Entries, ghost r: Entries, f: Renaming, ghost depth: nat) returns (data: Entries)
    requires Idempotent(f) && NoCollision(Sub(m), f) && Within(Sub(m), depth)
    requires r == Inner(m, f) && m.Keys == r.Keys && Injective(r, f)
    ensures data == Rekeyed(r, f)
    decreases depth, 2
  {
    data := m;
    var pending, extra: set<string> := m.Keys, {}; // still to be visited; may be visited
    ghost var part: Entries := map[];
    NothingVisited(m, f);
    while true
      invariant Part(part, r, f) && part.Keys !! pending && part.Keys + pending == m.Keys
      invariant data == Halfway(m, part, f)
      invariant extra <= Made(part, f)
      decreases pending, extra
    {
      var again := *;
      if again && extra != {} {
        var k :| k in extra;
        data := VisitMade(data, m, r, part, k, f, depth);
        extra := extra - {k};
      } else if pending != {} {
        var k :| k in pending;
        data := VisitPending(data, m, r, part, k, f, depth);
        MadeGrows(part, f, k, r[k]);
        OneLess(m.Keys, part, pending, k, r[k]);
        part := part[k := r[k]];
        if f(k) != k {
          extra := extra + {f(k)};
        }
        pending := pending - {k};
      } else {
        break;
      }
    }
    AllVisited(m, r, part, f);
  }

  /** The loop gets to an entry it made itself: nothing changes. */
  method VisitMade(data: Entries, ghost m: Entries, ghost r: Entries, ghost part: Entries, k: string, f: Renaming, ghost depth: nat)
    returns (next: Entries)
    requires Idempotent(f) && NoCollision(Sub(m), f) && Within(Sub(m), depth) && r == Inner(m, f) && Part(part, r, f)
    requires data == Halfway(m, part, f) && k in Made(part, f)
    ensures next == data
    decreases depth, 1
  {
    ghost var l :| l in part && f(l) == k;
    MadeEntry(m, part, f, l);
    RenamedWithin(m[l], f, depth - 1);
    next := Visit(data, k, f, depth - 1);
    assert (data - {k})[k := data[k]] == data;
  }

  /** The loop gets to an entry of the original map. */
  method VisitPending(data: Entries, ghost m: Entries, ghost r: Entries, ghost part: Entries, k: string, f: Renaming, ghost depth: nat)
    returns (next: Entries)
    requires Idempotent(f) && NoCollision(Sub(m), f) && Within(Sub(m), depth) && r == Inner(m, f) && Part(part, r, f)
    requires data == Halfway(m, part, f) && k in m && k !in part
    ensures var p := part[k := r[k]]; Part(p, r, f) && next == Halfway(m, p, f)
    decreases depth, 1
  {
    RenameOne(m, r, part, f, k);
    next := Visit(data, k, f, depth - 1);
  }

  /** The loop body: rename inside the value, then the key. */
  method Visit(data: Entries, k: string, f: Renaming, ghost depth: nat) returns (next: Entries)
    requires Idempotent(f) && k in data && NoCollision(data[k], f) && Within(data[k], depth)
    ensures next == (data - {k})[f(k) := Renamed(data[k], f)]
    decreases depth, 4
  {
    var v := data[k];
    next := data;
    if v.Sub? {
      var sub := ToYamlKeys(v.entries, f, depth);
      v := Sub(sub);
      next := next[k := v];
    }
    var newK := f(k);
    if newK != k {
      next := next - {k};
      next := next[newK := v];
    }
  }
}
