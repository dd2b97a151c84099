/** Writing and reading back a backup archive: `createTarball`, `extractTarball` and `matchGlob` of
    pkg/cli/backup/backup.go, on directories and regular files. */
module Archive {
  import opened Text

  type Name = string

  /** Components from the root; `[]` is `/`. */
  type Path = seq<Name>

  datatype Node = Dir | File(content: string)

  type Tree = map<Path, Node>

  /** A tar entry: its type, its name and, for a file, its data. */
  datatype Entry = Entry(path: Path, node: Node)

  predicate IsDir(tree: Tree, p: Path) { p in tree && tree[p].Dir? }

  predicate WellFormed(tree: Tree) {
    IsDir(tree, []) && forall p, i | p in tree && 0 <= i < |p| :: IsDir(tree, p[..i])
  }

  // ---------------------------------------------------------------- exclusions

  function Joined(p: Path): string {
    if p == [] then "" else Joined(p[..|p| - 1]) + "/" + p[|p| - 1]
  }

  /** The path as the walk and the patterns see it. */
  function PathText(p: Path): string { if p == [] then "/" else Joined(p) }

  function Base(p: Path): string { if p == [] then "/" else p[|p| - 1] }

  predicate MatchGlob(name: string, pattern: string) {
    if "*" <= pattern then HasSuffix(name, pattern[1..]) else name == pattern
  }

  predicate Excluded(p: Path, excludes: seq<string>) {
    exists e | e in excludes :: Contains(PathText(p), e) || MatchGlob(Base(p), e)
  }

  /** A pattern that begins with a star matches exactly the names that end with the rest of it; any other
      matches exactly itself. */
  lemma MatchGlobMeans(name: string, pattern: string)
    ensures MatchGlob(name, "*" + pattern) <==> exists front :: name == front + pattern
    ensures !("*" <= pattern) ==> (MatchGlob(name, pattern) <==> name == pattern)
  {
    assert ("*" + pattern)[1..] == pattern;
    if MatchGlob(name, "*" + pattern) {
      assert name == name[..|name| - |pattern|] + pattern;
    }
    forall front | name == front + pattern
      ensures MatchGlob(name, "*" + pattern)
    {
    }
  }

  lemma {:induction false} JoinedPrefix(p: Path, q: Path)
    requires p <= q
    ensures Joined(p) <= Joined(q)
    decreases |q|
  {
    if p == q {
    } else {
      assert p <= q[..|q| - 1];
      JoinedPrefix(p, q[..|q| - 1]);
    }
  }

  /** A pattern that occurs in the path of a directory excludes everything in the directory, although
      the walk goes on into it. */
  lemma ContainedExcludesAll(dir: Path, p: Path, e: string, excludes: seq<string>)
    requires e in excludes && dir != [] && dir <= p && Contains(PathText(dir), e)
    ensures Excluded(p, excludes)
  {
    JoinedPrefix(dir, p);
    var a, b := Joined(dir), Joined(p);
    ContainsGrows("", a, b[|a|..], e);
    assert "" + a + b[|a|..] == b;
  }

  // ---------------------------------------------------------------- writing

  function Kept(tree: Tree, root: Path, excludes: seq<string>): set<Path> {
    set p | p in tree && root <= p && !Excluded(p, excludes)
  }

  /** What is archived from several places. */
  function KeptFrom(tree: Tree, roots: seq<Path>, excludes: seq<string>): set<Path> {
    if roots == [] then {} else KeptFrom(tree, roots[..|roots| - 1], excludes) + Kept(tree, roots[|roots| - 1], excludes)
  }

  /** The paths below any of the places that match no exclusion. */
  lemma {:induction false} KeptFromMeans(tree: Tree, roots: seq<Path>, excludes: seq<string>, p: Path)
    ensures p in KeptFrom(tree, roots, excludes)
       <==> p in tree && !Excluded(p, excludes) && exists i :: 0 <= i < |roots| && roots[i] <= p
  {
    if roots == [] {
    } else {
      var k := |roots| - 1;
      KeptFromMeans(tree, roots[..k], excludes, p);
      assert roots == roots[..k] + [roots[k]];
      if exists i :: 0 <= i < k && roots[..k][i] <= p {
        var i :| 0 <= i < k && roots[..k][i] <= p;
        assert roots[i] <= p;
      }
    }
  }

  /** The entries are those of exactly these paths. */
  predicate Archives(entries: seq<Entry>, tree: Tree, paths: set<Path>) {
    && (forall e | e in entries :: e.path in paths && e.path in tree && e.node == tree[e.path])
    && (forall p | p in paths :: p in tree && Entry(p, tree[p]) in entries)
  }

  lemma ArchivesMore(a: seq<Entry>, b: seq<Entry>, tree: Tree, s: set<Path>, t: set<Path>)
    requires Archives(a, tree, s) && Archives(b, tree, t)
    ensures Archives(a + b, tree, s + t)
  {
  }

  /** Below `path`, only under the given names. */
  function Below(todo: set<Path>, path: Path, names: set<Name>): set<Path> {
    set q | q in todo && path < q && q[|path|] in names
  }

  function Children(tree: Tree, path: Path): set<Name> {
    set p | p in tree && path <= p && |p| == |path| + 1 :: p[|path|]
  }

  lemma ChildrenCover(tree: Tree, path: Path, excludes: seq<string>)
    requires WellFormed(tree) && path in tree
    ensures Kept(tree, path, excludes) - {path} == Below(Kept(tree, path, excludes), path, Children(tree, path))
  {
    forall q | q in tree && path < q
      ensures q[|path|] in Children(tree, path)
    {
      var c := q[..|path| + 1];
      assert |path| + 1 < |q| ==> IsDir(tree, q[..|path| + 1]);
      assert |path| + 1 == |q| ==> c == q;
      assert c in tree && c[|path|] == q[|path|] && path <= c;
    }
    forall q | path <= q && |q| == |path|
      ensures q == path
    {
      assert q[..|path|] == path;
    }
  }

  lemma ChildThere(tree: Tree, path: Path, n: Name)
    requires n in Children(tree, path)
    ensures path + [n] in tree
  {
    var p :| p in tree && path <= p && |p| == |path| + 1 && p[|path|] == n;
    assert p == path + [n];
  }

  lemma BelowOne(tree: Tree, path: Path, excludes: seq<string>, n: Name)
    ensures Below(Kept(tree, path, excludes), path, {n}) == Kept(tree, path + [n], excludes)
  {
    var c := path + [n];
    forall q | q in tree
      ensures path < q && q[|path|] == n <==> c <= q
    {
      if path < q && q[|path|] == n {
        assert q[..|path| + 1] == c;
      }
      if c <= q {
        assert q[..|path|] == c[..|path|] == path;
      }
    }
  }

  lemma FileIsLeaf(tree: Tree, path: Path, excludes: seq<string>)
    requires WellFormed(tree) && path in tree && tree[path].File?
    ensures Kept(tree, path, excludes) == if Excluded(path, excludes) then {} else {path}
  {
    forall q | q in tree && path <= q
      ensures q == path
    {
      assert q[..|path|] == path;
    }
  }

  /** A call that may fail. */
  method Fails(mayFail: bool) returns (fails: bool)
    ensures fails ==> mayFail
  {
    fails := *;
    fails := fails && mayFail;
  }

  /** What has been written when the writing stopped: entries of these paths, or all of them. */
  predicate Written(ok: bool, entries: seq<Entry>, tree: Tree, paths: set<Path>) {
    if ok then Archives(entries, tree, paths) else forall e | e in entries :: e.path in paths && e.path in tree && e.node == tree[e.path]
  }

  /** No path is written twice. */
  predicate Once(entries: seq<Entry>) {
    forall i, j | 0 <= i < j < |entries| :: entries[i].path != entries[j].path
  }

  lemma OnceMore(a: seq<Entry>, b: seq<Entry>, s: set<Path>, t: set<Path>)
    requires Once(a) && Once(b) && s !! t
    requires (forall e | e in a :: e.path in s) && (forall e | e in b :: e.path in t)
    ensures Once(a + b)
  {
    var all := a + b;
    forall i, j | 0 <= i < j < |all|
      ensures all[i].path != all[j].path
    {
      if i < |a| <= j {
        assert a[i] in a && b[j - |a|] in b;
      }
    }
  }

  /** The walk below one place: every entry that is not excluded is written, and the walk goes on into
      directories either way. */
  method Walk(tree: Tree, path: Path, excludes: seq<string>, mayFail: bool, ghost depth: nat)
    returns (ok: bool, entries: seq<Entry>)
    requires WellFormed(tree) && path in tree && forall p | p in tree :: |p| <= depth
    ensures Written(ok, entries, tree, Kept(tree, path, excludes)) && Once(entries) && (!mayFail ==> ok)
    decreases depth - |path|, 1
  {
    ghost var here: set<Path> := if Excluded(path, excludes) then {} else {path};
    entries := [];
    if !Excluded(path, excludes) {
      var fails := Fails(mayFail);
      if fails {
        return false, entries;
      }
      entries := [Entry(path, tree[path])];
    }
    assert Archives(entries, tree, here);
    ok := true;
    if tree[path].File? {
      FileIsLeaf(tree, path, excludes);
    } else {
      ghost var all := Kept(tree, path, excludes);
      ChildrenCover(tree, path, excludes);
      var more;
      ok, more := WalkIn(tree, path, excludes, mayFail, depth);
      WrittenMore(entries, more, tree, here, all - {path}, ok);
      OnceMore(entries, more, here, all - {path});
      assert here + (all - {path}) == all;
      entries := entries + more;
    }
  }

  lemma WrittenMore(a: seq<Entry>, b: seq<Entry>, tree: Tree, s: set<Path>, t: set<Path>, ok: bool)
    requires Archives(a, tree, s) && Written(ok, b, tree, t)
    ensures Written(ok, a + b, tree, s + t)
  {
    if ok {
      ArchivesMore(a, b, tree, s, t);
    }
  }

  /** The walk, in the entries of one directory. */
  method WalkIn(tree: Tree, path: Path, excludes: seq<string>, mayFail: bool, ghost depth: nat)
    returns (ok: bool, entries: seq<Entry>)
    requires WellFormed(tree) && path in tree && forall p | p in tree :: |p| <= depth
    ensures Written(ok, entries, tree, Below(Kept(tree, path, excludes), path, Children(tree, path)))
    ensures Once(entries) && (!mayFail ==> ok)
    decreases depth - |path|, 0
  {
    entries := [];
    var names := Children(tree, path);
    ghost var all := Kept(tree, path, excludes);
    ghost var walked: set<Name> := {};
    assert Below(all, path, walked) == {};
    while names != {}
      invariant names + walked == Children(tree, path) && names !! walked
      invariant Archives(entries, tree, Below(all, path, walked)) && Once(entries)
      decreases names
    {
      var n :| n in names;
      names := names - {n};
      ChildThere(tree, path, n);
      var more;
      ok, more := Walk(tree, path + [n], excludes, mayFail, depth);
      BelowOne(tree, path, excludes, n);
      WrittenMore(entries, more, tree, Below(all, path, walked), Below(all, path, {n}), ok);
      OnceMore(entries, more, Below(all, path, walked), Below(all, path, {n}));
      assert Below(all, path, walked) + Below(all, path, {n}) == Below(all, path, walked + {n});
      entries := entries + more;
      walked := walked + {n};
      if !ok {
        assert Below(all, path, walked) <= Below(all, path, Children(tree, path));
        return;
      }
    }
    assert walked == Children(tree, path);
    ok := true;
  }

  /** `createTarball`; a place that does not exist is skipped. */
  method CreateTarball(tree: Tree, roots: seq<Path>, excludes: seq<string>, mayFail: bool)
    returns (ok: bool, entries: seq<Entry>)
    requires WellFormed(tree)
    ensures Written(ok, entries, tree, KeptFrom(tree, roots, excludes)) && (!mayFail ==> ok)
  {
    entries := [];
    var fails := Fails(mayFail); // creating the archive
    if fails {
      return false, entries;
    }
    var i := 0;
    while i < |roots|
      invariant 0 <= i <= |roots| && Archives(entries, tree, KeptFrom(tree, roots[..i], excludes))
    {
      OneMorePlace(tree, roots, i, excludes);
      if roots[i] in tree {
        var more;
        ok, more := Walk(tree, roots[i], excludes, mayFail, MaxLength(tree.Keys));
        WrittenMore(entries, more, tree, KeptFrom(tree, roots[..i], excludes), Kept(tree, roots[i], excludes), ok);
        entries := entries + more;
        if !ok {
          WrittenInPart(entries, tree, roots, i + 1, excludes);
          return;
        }
      } else {
        NothingThere(tree, roots[i], excludes);
      }
      i := i + 1;
    }
    assert roots[..i] == roots;
    ok := true;
  }

  lemma {:induction false} OneMorePlace(tree: Tree, roots: seq<Path>, i: nat, excludes: seq<string>)
    requires i < |roots|
    ensures KeptFrom(tree, roots[..i + 1], excludes) == KeptFrom(tree, roots[..i], excludes) + Kept(tree, roots[i], excludes)
  {
    assert roots[..i + 1][..i] == roots[..i];
  }

  lemma {:induction false} WrittenInPart(entries: seq<Entry>, tree: Tree, roots: seq<Path>, i: nat, excludes: seq<string>)
    requires i <= |roots| && Written(false, entries, tree, KeptFrom(tree, roots[..i], excludes))
    ensures Written(false, entries, tree, KeptFrom(tree, roots, excludes))
  {
    KeptFromGrows(tree, roots, i, excludes);
  }

  lemma {:induction false} KeptFromGrows(tree: Tree, roots: seq<Path>, i: nat, excludes: seq<string>)
    requires i <= |roots|
    ensures KeptFrom(tree, roots[..i], excludes) <= KeptFrom(tree, roots, excludes)
  {
    if i == |roots| {
      assert roots[..i] == roots;
    } else {
      assert roots[..|roots| - 1][..i] == roots[..i];
      KeptFromGrows(tree, roots[..|roots| - 1], i, excludes);
    }
  }

  lemma RootThere(tree: Tree, root: Path, p: Path)
    requires WellFormed(tree) && p in tree && root <= p
    ensures root in tree
  {
    assert p[..|root|] == root && p[..|p|] == p;
    assert |root| < |p| ==> IsDir(tree, p[..|root|]);
  }

  lemma NothingThere(tree: Tree, root: Path, excludes: seq<string>)
    requires WellFormed(tree) && root !in tree
    ensures Kept(tree, root, excludes) == {}
  {
    if Kept(tree, root, excludes) != {} {
      var p :| p in Kept(tree, root, excludes);
      RootThere(tree, root, p);
      assert false;
    }
  }

  // ---------------------------------------------------------------- reading back

  /** Paths and everything above them. */
  function Needed(paths: set<Path>): set<Path> {
    set p, i | p in paths && 0 <= i <= |p| :: p[..i]
  }

  /** `os.MkdirAll`: fails when a file is in the way. */
  function MkdirAll(fs: Tree, p: Path): Option<Tree> {
    if exists i | 0 <= i <= |p| :: p[..i] in fs && fs[p[..i]].File? then None
    else Some(map q | q in fs.Keys + Needed({p}) :: if q in fs then fs[q] else Dir)
  }

  /** Writing from the start of a file opened without truncation: a longer old content keeps its tail. */
  function WriteOver(old': string, content: string): string {
    if |old'| > |content| then content + old'[|content|..] else content
  }

  function ContentAt(fs: Tree, p: Path): string { if p in fs && fs[p].File? then fs[p].content else "" }

  function ExtractOne(fs: Tree, e: Entry): Option<Tree> {
    match e.node
    case Dir => MkdirAll(fs, e.path)
    case File(content) =>
      if e.path == [] then None
      else
        var made := MkdirAll(fs, e.path[..|e.path| - 1]);
        if made.None? || IsDir(made.value, e.path) then None
        else Some(made.value[e.path := File(WriteOver(ContentAt(made.value, e.path), content))])
  }

  datatype Extracted = Extracted(fs: Tree, ok: bool)

  /** Entry by entry, up to the first that fails. */
  function ExtractAll(fs: Tree, entries: seq<Entry>): Extracted {
    if entries == [] then Extracted(fs, true)
    else
      var n := |entries| - 1;
      var r := ExtractAll(fs, entries[..n]);
      if !r.ok then r
      else
        match ExtractOne(r.fs, entries[n])
        case None => r.(ok := false)
        case Some(next) => Extracted(next, true)
  }

  class Target {
    var fs: Tree

    constructor (initial: Tree)
      ensures fs == initial
    {
      fs := initial;
    }

    /** Some of what one entry does, when a call fails half-way: directories on the way, then the
        beginning of the file. */
    method ExtractPart(e: Entry)
      modifies this
      ensures Touched(old(fs), fs, e.path)
    {
      var stop: nat :| stop <= |e.path|;
      if e.node.File? && stop == |e.path| && e.path != [] {
        var made := MkdirAll(fs, e.path[..stop - 1]);
        var n: nat :| n <= |e.node.content|;
        if made.Some? && !IsDir(made.value, e.path) {
          PartsTouch(fs, e.path, stop - 1);
          fs := made.value[e.path := File(WriteOver(ContentAt(made.value, e.path), e.node.content[..n]))];
        }
      } else {
        var made := MkdirAll(fs, e.path[..stop]);
        if made.Some? {
          PartsTouch(fs, e.path, stop);
          fs := made.value;
        }
      }
    }

    /** `extractTarball`. A failure of the system stops it at some entry, and only that entry's place and
        the way there are touched. */
    method ExtractTarball(entries: seq<Entry>, mayFail: bool) returns (ok: bool)
      modifies this
      ensures ok || !mayFail ==> Extracted(fs, ok) == ExtractAll(old(fs), entries)
      ensures !ok ==> exists i :: 0 <= i < |entries| && StoppedAt(old(fs), fs, entries, i)
    {
      var i := 0;
      while i < |entries|
        invariant 0 <= i <= |entries| && Extracted(fs, true) == ExtractAll(old(fs), entries[..i])
      {
        assert entries[..i + 1][..i] == entries[..i];
        var fails := Fails(mayFail);
        if fails {
          ExtractPart(entries[i]);
          assert StoppedAt(old(fs), fs, entries, i);
          return false;
        }
        var next := ExtractOne(fs, entries[i]);
        if next.None? {
          FailureStays(old(fs), entries, i + 1);
          assert StoppedAt(old(fs), fs, entries, i);
          return false;
        }
        fs := next.value;
        i := i + 1;
      }
      assert entries[..i] == entries;
      ok := true;
    }
  }

  /** Nothing has changed but the node at `p` and the way there. */
  predicate Touched(before: Tree, after: Tree, p: Path) {
    forall q | q in before.Keys + after.Keys && !(q <= p) :: q in before && q in after && before[q] == after[q]
  }

  /** All entries before number `i` were extracted, and nothing of those after it. */
  predicate StoppedAt(before: Tree, after: Tree, entries: seq<Entry>, i: nat)
    requires i < |entries|
  {
    var r := ExtractAll(before, entries[..i]);
    r.ok && Touched(r.fs, after, entries[i].path)
  }

  lemma PartsTouch(fs: Tree, p: Path, i: nat)
    requires i <= |p| && MkdirAll(fs, p[..i]).Some?
    ensures Touched(fs, MkdirAll(fs, p[..i]).value, p)
  {
    forall q | q in Needed({p[..i]})
      ensures q <= p
    {
      var j :| 0 <= j <= i && q == p[..i][..j];
      assert q == p[..j];
    }
  }

  lemma {:induction false} FailureStays(fs: Tree, entries: seq<Entry>, i: nat)
    requires i <= |entries| && !ExtractAll(fs, entries[..i]).ok
    ensures ExtractAll(fs, entries) == ExtractAll(fs, entries[..i])
  {
    if i == |entries| {
      assert entries[..i] == entries;
    } else {
      assert entries[..|entries| - 1][..i] == entries[..i];
      FailureStays(fs, entries[..|entries| - 1], i);
    }
  }

  /** Where the archive's paths meet existing ones, a directory meets a directory and a file a file. */
  predicate Fits(dest: Tree, tree: Tree, paths: set<Path>) {
    && (forall p | p in paths :: p in tree)
    && (forall q | q in Needed(paths) && q in dest && q in tree :: dest[q].Dir? <==> tree[q].Dir?)
  }

  /** `dest` with the given paths of `tree` extracted into it. */
  function Restored(dest: Tree, tree: Tree, paths: set<Path>): Tree {
    map q | q in dest.Keys + Needed(paths) :: RestoredNode(dest, tree, q in paths, q)
  }

  function RestoredNode(dest: Tree, tree: Tree, archived: bool, q: Path): Node {
    if archived && q in tree && tree[q].File? then File(WriteOver(ContentAt(dest, q), tree[q].content))
    else if q in dest then dest[q] else Dir
  }

  /** On the way to an archived path there are only directories. */
  lemma NoFileInTheWay(dest: Tree, tree: Tree, paths: set<Path>, done: set<Path>, p: Path, q: Path)
    requires WellFormed(tree) && Fits(dest, tree, paths) && done <= paths && p in paths && q <= p && (q == p ==> tree[p].Dir?)
    ensures q in Restored(dest, tree, done) ==> Restored(dest, tree, done)[q].Dir?
    ensures q in Needed({p}) && q in Needed(paths) && IsDir(tree, q)
  {
    assert q == p[..|q|];
    assert IsDir(tree, p[..|q|]) by {
      if q == p {
        assert p[..|q|] == p;
      }
    }
  }

  /** `MkdirAll` on the way to an archived path adds what is missing, as directories. */
  lemma MkdirWorks(dest: Tree, tree: Tree, paths: set<Path>, done: set<Path>, p: Path, d: Path)
    requires WellFormed(tree) && Fits(dest, tree, paths) && done <= paths && p in paths && d <= p && (d == p ==> tree[p].Dir?)
    ensures var cur := Restored(dest, tree, done);
      MkdirAll(cur, d) == Some(map q | q in cur.Keys + Needed({d}) :: if q in cur then cur[q] else Dir)
  {
    forall i | 0 <= i <= |d|
      ensures d[..i] in Restored(dest, tree, done) ==> Restored(dest, tree, done)[d[..i]].Dir?
    {
      assert d[..i] <= p && (d[..i] == p ==> d == p);
      NoFileInTheWay(dest, tree, paths, done, p, d[..i]);
    }
  }

  lemma NeededGrows(paths: set<Path>, p: Path)
    ensures Needed(paths + {p}) == Needed(paths) + Needed({p})
    ensures p in Needed({p})
    ensures p != [] ==> Needed({p}) == Needed({p[..|p| - 1]}) + {p}
  {
    assert p[..|p|] == p;
    if p != [] {
      var d := p[..|p| - 1];
      forall q | q in Needed({p})
        ensures q in Needed({d}) + {p}
      {
        var i :| 0 <= i <= |p| && q == p[..i];
        assert i < |p| ==> q == d[..i];
      }
      forall q | q in Needed({d})
        ensures q in Needed({p})
      {
        var i :| 0 <= i <= |d| && q == d[..i];
        assert q == p[..i];
      }
    }
  }

  lemma WriteTwice(a: string, b: string)
    ensures WriteOver(WriteOver(a, b), b) == WriteOver(a, b)
  {
  }

  lemma RestoreDir(dest: Tree, tree: Tree, paths: set<Path>, done: set<Path>, p: Path)
    requires WellFormed(tree) && Fits(dest, tree, paths) && done <= paths && p in paths && tree[p].Dir?
    ensures ExtractOne(Restored(dest, tree, done), Entry(p, tree[p])) == Some(Restored(dest, tree, done + {p}))
  {
    var cur := Restored(dest, tree, done);
    MkdirWorks(dest, tree, paths, done, p, p);
    NeededGrows(done, p);
    MadeDir(dest, tree, done, p, map q | q in cur.Keys + Needed({p}) :: if q in cur then cur[q] else Dir);
  }

  lemma MadeDir(dest: Tree, tree: Tree, done: set<Path>, p: Path, made: Tree)
    requires p in tree && tree[p].Dir? && Needed(done + {p}) == Needed(done) + Needed({p})
    requires var cur := Restored(dest, tree, done); made == map q | q in cur.Keys + Needed({p}) :: if q in cur then cur[q] else Dir
    ensures made == Restored(dest, tree, done + {p})
  {
    var cur, next := Restored(dest, tree, done), Restored(dest, tree, done + {p});
    assert made.Keys == next.Keys;
    forall q | q in next
      ensures made[q] == next[q]
    {
      RestoredAt(dest, tree, done, q);
      RestoredAt(dest, tree, done + {p}, q);
      assert q in done ==> q in Needed(done) by {
        assert q[..|q|] == q;
      }
    }
  }

  lemma RestoreFile(dest: Tree, tree: Tree, paths: set<Path>, done: set<Path>, p: Path)
    requires WellFormed(tree) && Fits(dest, tree, paths) && done <= paths && p in paths && tree[p].File?
    ensures ExtractOne(Restored(dest, tree, done), Entry(p, tree[p])) == Some(Restored(dest, tree, done + {p}))
  {
    assert p != [];
    var d := p[..|p| - 1];
    var cur := Restored(dest, tree, done);
    var made := map q | q in cur.Keys + Needed({d}) :: if q in cur then cur[q] else Dir;
    MkdirWorks(dest, tree, paths, done, p, d);
    NeededGrows(done, p);
    NotADirectory(dest, tree, paths, done, p);
    NotANeeded(d, p);
    ExtractFile(cur, p, tree[p].content, made);
    WriteTwice(ContentAt(dest, p), tree[p].content);
    WrittenFile(dest, tree, done, p, d, made, File(WriteOver(ContentAt(made, p), tree[p].content)));
  }

  lemma ExtractFile(fs: Tree, p: Path, content: string, made: Tree)
    requires p != [] && MkdirAll(fs, p[..|p| - 1]) == Some(made) && !IsDir(made, p)
    ensures ExtractOne(fs, Entry(p, File(content))) == Some(made[p := File(WriteOver(ContentAt(made, p), content))])
  {
  }

  lemma WrittenFile(dest: Tree, tree: Tree, done: set<Path>, p: Path, d: Path, made: Tree, written: Node)
    requires p in tree && tree[p].File? && p !in Needed({d})
    requires Needed(done + {p}) == Needed(done) + Needed({d}) + {p}
    requires var cur := Restored(dest, tree, done); made == map q | q in cur.Keys + Needed({d}) :: if q in cur then cur[q] else Dir
    requires written == File(WriteOver(ContentAt(dest, p), tree[p].content))
    ensures made[p := written] == Restored(dest, tree, done + {p})
  {
    var next := Restored(dest, tree, done + {p});
    var r := made[p := written];
    assert r.Keys == next.Keys;
    forall q | q in next
      ensures r[q] == next[q]
    {
      assert p[..|p|] == p && forall x | x in done :: x[..|x|] == x;
      assert q in done ==> q in Needed(done);
    }
  }

  lemma NotANeeded(d: Path, p: Path)
    requires |d| < |p|
    ensures p !in Needed({d})
  {
  }

  /** An archived file meets no directory at its place. */
  lemma NotADirectory(dest: Tree, tree: Tree, paths: set<Path>, done: set<Path>, p: Path)
    requires WellFormed(tree) && Fits(dest, tree, paths) && done <= paths && p in paths && tree[p].File?
    ensures !IsDir(Restored(dest, tree, done), p)
    ensures p in Restored(dest, tree, done) ==> p in dest || p in done
    ensures ContentAt(Restored(dest, tree, done), p)
         == if p in done then WriteOver(ContentAt(dest, p), tree[p].content) else ContentAt(dest, p)
  {
    assert p[..|p|] == p;
    assert p in Needed(paths) && (p in done ==> p in Needed(done));
    if p in Needed(done) {
      FileHasNothingBelow(tree, paths, done, p);
    }
    RestoredAt(dest, tree, done, p);
  }

  lemma RestoredAt(dest: Tree, tree: Tree, done: set<Path>, q: Path)
    ensures q in Restored(dest, tree, done) <==> q in dest || q in Needed(done)
    ensures q in Restored(dest, tree, done) ==> Restored(dest, tree, done)[q] == RestoredNode(dest, tree, q in done, q)
  {
  }

  lemma FileHasNothingBelow(tree: Tree, paths: set<Path>, done: set<Path>, p: Path)
    requires WellFormed(tree) && done <= paths && (forall r | r in paths :: r in tree)
    requires p in tree && tree[p].File? && p in Needed(done)
    ensures p in done
  {
    var r, i :| r in done && 0 <= i <= |r| && p == r[..i];
    assert r[..|r|] == r;
  }

  lemma RestoreOne(dest: Tree, tree: Tree, paths: set<Path>, done: set<Path>, p: Path)
    requires WellFormed(tree) && Fits(dest, tree, paths) && done <= paths && p in paths
    ensures ExtractOne(Restored(dest, tree, done), Entry(p, tree[p])) == Some(Restored(dest, tree, done + {p}))
  {
    if tree[p].Dir? {
      RestoreDir(dest, tree, paths, done, p);
    } else {
      RestoreFile(dest, tree, paths, done, p);
    }
  }

  function PathsOf(entries: seq<Entry>): set<Path> { set e | e in entries :: e.path }

  lemma NothingRestored(dest: Tree, tree: Tree)
    ensures Restored(dest, tree, {}) == dest
  {
    assert Needed({}) == {};
  }

  lemma {:induction false} LastExtracted(fs: Tree, entries: seq<Entry>, cur: Tree, next: Tree)
    requires entries != [] && ExtractAll(fs, entries[..|entries| - 1]) == Extracted(cur, true)
    requires ExtractOne(cur, entries[|entries| - 1]) == Some(next)
    ensures ExtractAll(fs, entries) == Extracted(next, true)
  {
  }

  lemma LastPath(entries: seq<Entry>)
    requires entries != []
    ensures var n := |entries| - 1; PathsOf(entries) == PathsOf(entries[..n]) + {entries[n].path}
  {
    var n := |entries| - 1;
    assert entries == entries[..n] + [entries[n]];
  }

  /** The entries are those of the tree. */
  predicate AreOf(entries: seq<Entry>, tree: Tree, paths: set<Path>) {
    forall e | e in entries :: e.path in paths && e.path in tree && e == Entry(e.path, tree[e.path])
  }

  lemma {:induction false} PathsAreOf(entries: seq<Entry>, tree: Tree, paths: set<Path>)
    requires AreOf(entries, tree, paths)
    ensures PathsOf(entries) <= paths
  {
  }

  lemma {:induction false} ExtractFitting(dest: Tree, tree: Tree, paths: set<Path>, entries: seq<Entry>)
    requires WellFormed(tree) && Fits(dest, tree, paths) && AreOf(entries, tree, paths)
    ensures ExtractAll(dest, entries) == Extracted(Restored(dest, tree, PathsOf(entries)), true)
  {
    if entries == [] {
      NothingRestored(dest, tree);
    } else {
      var n := |entries| - 1;
      var e := entries[n];
      assert e in entries && forall x | x in entries[..n] :: x in entries;
      ExtractFitting(dest, tree, paths, entries[..n]);
      var done := PathsOf(entries[..n]);
      PathsAreOf(entries[..n], tree, paths);
      RestoreOne(dest, tree, paths, done, e.path);
      LastExtracted(dest, entries, Restored(dest, tree, done), Restored(dest, tree, done + {e.path}));
      LastPath(entries);
    }
  }

  /** No entry removes anything or changes its kind. */
  lemma {:induction false} KindsStay(fs: Tree, entries: seq<Entry>)
    ensures var r := ExtractAll(fs, entries).fs;
      forall q | q in fs :: q in r && (r[q].Dir? <==> fs[q].Dir?)
  {
    if entries == [] {
    } else {
      KindsStay(fs, entries[..|entries| - 1]);
    }
  }

  /** Something of another kind is in the way of an entry. */
  lemma InTheWay(fs: Tree, tree: Tree, p: Path, q: Path)
    requires WellFormed(tree) && p in tree && q in tree && q <= p && q in fs && fs[q].Dir? != tree[q].Dir?
    ensures ExtractOne(fs, Entry(p, tree[p])) == None
  {
    assert q == p[..|q|] && p[..|p|] == p;
    if |q| < |p| {
      assert p[..|p| - 1][..|q|] == q;
      assert IsDir(tree, p[..|q|]);
      FileBlocks(fs, p, |q|);
      FileBlocks(fs, p[..|p| - 1], |q|);
    } else if tree[p].Dir? {
      FileBlocks(fs, p, |p|);
    } else {
      assert IsDir(fs, p) && p != [];
    }
  }

  lemma FileBlocks(fs: Tree, p: Path, i: nat)
    ensures i <= |p| && p[..i] in fs && fs[p[..i]].File? ==> MkdirAll(fs, p) == None
  {
  }

  /** Extraction succeeds exactly when nothing of another kind is in the way; then the tree holds the
      archived paths, the directories above them, and everything it held before. */
  lemma {:induction false} ExtractsExactly(dest: Tree, tree: Tree, paths: set<Path>, entries: seq<Entry>)
    requires WellFormed(tree) && Archives(entries, tree, paths)
    ensures ExtractAll(dest, entries).ok <==> Fits(dest, tree, paths)
    ensures Fits(dest, tree, paths) ==> ExtractAll(dest, entries).fs == Restored(dest, tree, paths)
  {
    if Fits(dest, tree, paths) {
      ExtractFitting(dest, tree, paths, entries);
      assert PathsOf(entries) == paths;
    } else {
      var q :| q in Needed(paths) && q in dest && q in tree && dest[q].Dir? != tree[q].Dir?;
      var p, i :| p in paths && 0 <= i <= |p| && q == p[..i];
      var j :| 0 <= j < |entries| && entries[j] == Entry(p, tree[p]);
      KindsStay(dest, entries[..j]);
      InTheWay(ExtractAll(dest, entries[..j]).fs, tree, p, q);
      assert entries[..j + 1][..j] == entries[..j];
      FailureStays(dest, entries, j + 1);
    }
  }

  // ---------------------------------------------------------------- the round trip

  /** Extracted where none of the files exist, the archive gives back every archived directory and file
      as it was, and nothing else but directories above them. */
  lemma RoundTrip(dest: Tree, tree: Tree, paths: set<Path>)
    requires WellFormed(tree) && Fits(dest, tree, paths)
    requires forall p | p in paths && tree[p].File? :: p !in dest
    ensures var r := Restored(dest, tree, paths);
      && (forall p | p in paths :: p in r && r[p] == tree[p])
      && (forall q | q in Needed(paths) :: q in r && q in tree && r[q] == tree[q])
      && (forall q | q in r && q !in Needed(paths) :: q in dest && r[q] == dest[q])
  {
    var r := Restored(dest, tree, paths);
    forall q | q in Needed(paths)
      ensures q in r && q in tree && r[q] == tree[q]
    {
      var p, i :| p in paths && 0 <= i <= |p| && q == p[..i];
      assert p[..|p|] == p;
      assert i < |p| ==> IsDir(tree, q);
    }
    forall p | p in paths
      ensures p in Needed(paths)
    {
      assert p[..|p|] == p;
    }
  }

  /** Exactly the paths that match no exclusion come back below `root`, unless one of them lies in a
      directory that a pattern excludes by its own name only: such a directory is made again. */
  lemma OnlyKeptComeBack(tree: Tree, root: Path, excludes: seq<string>)
    requires WellFormed(tree)
    ensures (forall q | q in Needed(Kept(tree, root, excludes)) && root <= q :: q in Kept(tree, root, excludes))
       <==> (forall d, p | d in tree && p in tree && root <= d < p && Excluded(d, excludes) :: Excluded(p, excludes))
  {
    var kept := Kept(tree, root, excludes);
    if forall d, p | d in tree && p in tree && root <= d < p && Excluded(d, excludes) :: Excluded(p, excludes) {
      forall q | q in Needed(kept) && root <= q
        ensures q in kept
      {
        var p, i :| p in kept && 0 <= i <= |p| && q == p[..i];
        assert p[..|p|] == p;
        assert i < |p| ==> IsDir(tree, q);
      }
    } else {
      var d, p :| d in tree && p in tree && root <= d < p && Excluded(d, excludes) && !Excluded(p, excludes);
      assert p in kept && d == p[..|d|];
      assert d in Needed(kept) && d !in kept;
    }
  }

  /** Over an existing file, the archived content comes back exactly when that file is not longer. */
  lemma OverwriteIsExact(dest: Tree, tree: Tree, paths: set<Path>, p: Path)
    requires Fits(dest, tree, paths) && p in paths && tree[p].File?
    ensures p in Restored(dest, tree, paths)
    ensures Restored(dest, tree, paths)[p] == tree[p] <==> |ContentAt(dest, p)| <= |tree[p].content|
    ensures var was, now := ContentAt(dest, p), ContentAt(Restored(dest, tree, paths), p);
      var n := |tree[p].content|;
      && tree[p].content <= now && (n <= |was| ==> |now| == |was| && now[n..] == was[n..])
  {
    assert p == p[..|p|];
    assert p in Needed(paths);
  }
}
