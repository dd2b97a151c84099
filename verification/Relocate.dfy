/** Moving a root file system that lives in memory onto a fresh tmpfs: `copyFS` of
    pkg/transferroot/transferroot.go, called by `Relocate` with the new root `/mnt`.

    One map holds every path the running system can see, each node with the device it is on. Three walks
    change the map while they read it: the first makes directories under `/mnt`, the second moves
    files and links there one at a time, the third deletes what is left on the old root. */
module Relocation {
  import opened Text

  type Name = string

  /** Components from the root; `[]` is `/`. */
  type Path = seq<Name>

  datatype Meta = Meta(mode: nat, owner: nat)

  /** `Other` stands for sockets and unknown kinds of file, which make the move fail. */
  datatype Node =
    | Dir(dev: nat, meta: Meta)
    | File(dev: nat, meta: Meta, content: string)
    | Link(dev: nat, meta: Meta, target: string)
    | Other(dev: nat, meta: Meta)

  type FS = map<Path, Node>

  const NEW_ROOT: Path := ["mnt"]

  /** Where the copy of `q` goes. */
  function Dest(q: Path): Path { NEW_ROOT + q }

  /** Size of the copy buffer. */
  const CHUNK := 32768

  function Parent(p: Path): Path
    requires p != []
  {
    p[..|p| - 1]
  }

  predicate IsDir(fs: FS, p: Path) { p in fs && fs[p].Dir? }

  predicate WellFormed(fs: FS) {
    IsDir(fs, []) && forall p {:trigger Parent(p)} | p in fs && p != [] :: IsDir(fs, Parent(p))
  }

  /** Mounting an empty tmpfs hides whatever was under `/mnt`. */
  function Mounted(fs: FS, newDev: nat, meta: Meta): FS {
    map p | p in fs.Keys + {NEW_ROOT} && !(NEW_ROOT < p) :: if p == NEW_ROOT then Dir(newDev, meta) else fs[p]
  }

  // ---------------------------------------------------------------- what is to be copied

  /** The walk gets to `q`: every directory above it is on the root device. */
  predicate Visited(fs: FS, dev: nat, q: Path) {
    q in fs && forall i | 0 <= i < |q| :: IsDir(fs, q[..i]) && fs[q[..i]].dev == dev
  }

  /** Everything the walk from `path` gets to, without the root itself. */
  function Reached(fs: FS, dev: nat, path: Path): set<Path> {
    set q | q in fs && path <= q && q != [] && Visited(fs, dev, q)
  }

  function Dirs(fs: FS, dev: nat, path: Path): set<Path> {
    set q | q in Reached(fs, dev, path) && fs[q].Dir?
  }

  /** Below `path`, only under the given names. */
  function Below(todo: set<Path>, path: Path, names: seq<Name>): set<Path> {
    set q | q in todo && path < q && q[|path|] in names
  }

  function Image(node: Node, newDev: nat): Node { node.(dev := newDev) }

  function WithMeta(node: Node, meta: Meta): Node { node.(meta := meta) }

  /** A node just made on device `dev`: root owns it. */
  function Fresh(node: Node, dev: nat): Node { node.(dev := dev, meta := node.meta.(owner := 0)) }

  /** The new root that a complete relocation produces, seen from inside. `base` is the system just
      after the new root got the metadata of the old one. */
  function Mirror(base: FS, dev: nat, newDev: nat): FS {
    map q | q in Reached(base, dev, []) + {[]} && q in base :: Image(base[q], newDev)
  }

  // ---------------------------------------------------------------- the system in the middle of a walk

  /** `done` has been copied, `removed` has been deleted from the old root, all else is as in `base`. */
  ghost predicate Mid(fs: FS, base: FS, newDev: nat, done: set<Path>, removed: set<Path>) {
    && (forall p: Path {:trigger p in fs} | !(NEW_ROOT < p) :: p in fs <==> p in base && p !in removed)
    && (forall p {:trigger fs[p]} | p in fs && !(NEW_ROOT < p) :: p in base && fs[p] == base[p])
    && (forall q: Path {:trigger Dest(q)} | q != [] :: Dest(q) in fs <==> q in done)
    && (forall q {:trigger Dest(q)} | q in done && q in base && q != [] :: fs[Dest(q)] == Image(base[q], newDev))
  }

  /** The file is whole in the old tree or in the new one. */
  predicate Kept(fs: FS, q: Path, file: Node)
    requires file.File?
  {
    || (q in fs && fs[q] == file)
    || (Dest(q) in fs && fs[Dest(q)].File? && fs[Dest(q)].content == file.content)
  }

  /** No file of the root device is lost. */
  predicate NoLoss(fs: FS, base: FS, dev: nat) {
    forall q | q in Reached(base, dev, []) && base[q].File? :: Kept(fs, q, base[q])
  }

  predicate Sound(fs: FS, base: FS, dev: nat) { WellFormed(fs) && NoLoss(fs, base, dev) }

  /** The system `copyFS` starts its walks on: the new root is mounted, and empty. */
  predicate Ready(base: FS, dev: nat, newDev: nat) {
    && WellFormed(base) && dev != newDev && base[[]].dev == dev
    && NEW_ROOT in base && base[NEW_ROOT] == Dir(newDev, base[[]].meta)
    && forall p | p in base :: !(NEW_ROOT < p)
  }

  lemma ReachedParent(base: FS, dev: nat, q: Path)
    requires WellFormed(base) && q in Reached(base, dev, []) && |q| > 1
    ensures Parent(q) in Dirs(base, dev, [])
    ensures base[Parent(q)].dev == dev
  {
    var p := Parent(q);
    assert q[..|p|] == p;
    forall i | 0 <= i < |p|
      ensures IsDir(base, p[..i]) && base[p[..i]].dev == dev
    {
      assert p[..i] == q[..i];
    }
  }

  /** What is below `path` is below one of its children. */
  lemma ReachedSplits(base: FS, dev: nat, path: Path, names: seq<Name>)
    requires WellFormed(base) && Visited(base, dev, path)
    requires IsDir(base, path) && base[path].dev == dev
    requires forall n: Name :: path + [n] in base <==> n in names
    ensures Reached(base, dev, path) - {path} == Below(Reached(base, dev, []), path, names)
  {
    forall q | q in Reached(base, dev, path) && q != path
      ensures q[|path|] in names
    {
      var c := q[..|path| + 1];
      assert c == path + [q[|path|]];
      assert |path| + 1 < |q| ==> IsDir(base, q[..|path| + 1]);
      assert |path| + 1 == |q| ==> c == q;
      assert c in base;
    }
    forall q
      ensures q in Reached(base, dev, path) && q != path <==> q in Below(Reached(base, dev, []), path, names)
    {
    }
  }

  lemma DirsSplit(base: FS, dev: nat, path: Path, names: seq<Name>)
    requires WellFormed(base) && Visited(base, dev, path) && path != []
    requires IsDir(base, path) && base[path].dev == dev
    requires forall n: Name :: path + [n] in base <==> n in names
    ensures Dirs(base, dev, path) == {path} + Below(Dirs(base, dev, []), path, names)
  {
    ReachedSplits(base, dev, path, names);
    forall q
      ensures q in Dirs(base, dev, path) <==> q in {path} + Below(Dirs(base, dev, []), path, names)
    {
      assert q in Reached(base, dev, path) - {path} <==> q in Below(Reached(base, dev, []), path, names);
    }
  }

  lemma BelowStep(todo: set<Path>, path: Path, names: seq<Name>, i: nat)
    requires i < |names|
    ensures Below(todo, path, names[..i + 1])
         == Below(todo, path, names[..i]) + set q | q in todo && path + [names[i]] <= q
  {
    assert names[..i + 1] == names[..i] + [names[i]];
    forall q | q in todo && path < q && q[|path|] == names[i]
      ensures path + [names[i]] <= q
    {
      assert q[..|path| + 1] == path + [names[i]];
    }
    forall q | q in todo && path + [names[i]] <= q
      ensures path < q && q[|path|] == names[i]
    {
      assert q[..|path|] == path;
    }
  }

  lemma OffRootIsLeaf(base: FS, dev: nat, path: Path)
    requires Visited(base, dev, path) && path != [] && base[path].dev != dev
    ensures Reached(base, dev, path) == {path}
  {
    forall q | q in Reached(base, dev, path)
      ensures q == path
    {
      assert q[..|path|] == path;
    }
  }

  lemma FileIsLeaf(base: FS, dev: nat, path: Path)
    requires WellFormed(base) && Visited(base, dev, path) && path != [] && !base[path].Dir?
    ensures Reached(base, dev, path) == {path}
  {
    forall q | q in Reached(base, dev, path)
      ensures q == path
    {
      assert q[..|path|] == path;
    }
  }

  lemma ChildVisited(base: FS, dev: nat, path: Path, n: Name)
    requires Visited(base, dev, path) && IsDir(base, path) && base[path].dev == dev && path + [n] in base
    ensures Visited(base, dev, path + [n])
  {
    var c := path + [n];
    forall i | 0 <= i < |c|
      ensures IsDir(base, c[..i]) && base[c[..i]].dev == dev
    {
      assert c[..i] == path[..i];
      assert path[..|path|] == path;
    }
  }

  /** Adding the copy of `q`, below a directory that has been copied. */
  lemma MidAdd(fs: FS, base: FS, newDev: nat, done: set<Path>, removed: set<Path>, q: Path, node: Node)
    requires Mid(fs, base, newDev, done, removed) && q != [] && q in base && node == Image(base[q], newDev)
    ensures Mid(fs[Dest(q) := node], base, newDev, done + {q}, removed)
  {
    forall r: Path | r != [] && r != q
      ensures Dest(r) != Dest(q)
    {
      assert (Dest(r))[1..] == r && (Dest(q))[1..] == q;
    }
    assert NEW_ROOT < Dest(q);
  }

  /** Changing or adding the copy of `q` loses no file, as long as `q` is still where it was, or the copy
      holds its content. */
  lemma CopySound(fs: FS, base: FS, dev: nat, newDev: nat, q: Path, node: Node)
    requires Ready(base, dev, newDev) && Sound(fs, base, dev) && q != [] && q in base && IsDir(fs, Parent(Dest(q)))
    requires Dest(q) in fs ==> (fs[Dest(q)].Dir? <==> node.Dir?)
    requires q in fs && fs[q] == base[q] && !(NEW_ROOT < q)
    ensures Sound(fs[Dest(q) := node], base, dev)
  {
    var t := fs[Dest(q) := node];
    forall r | r in Reached(base, dev, []) && base[r].File?
      ensures Kept(t, r, base[r])
    {
      assert r != q ==> (Dest(r))[1..] != (Dest(q))[1..];
      assert Kept(fs, r, base[r]);
      assert NEW_ROOT < Dest(q) && !(NEW_ROOT < r);
    }
  }

  /** The parent of a copy is there before the copy is made, and the place is free. */
  lemma ParentCopied(fs: FS, base: FS, dev: nat, newDev: nat, done: set<Path>, removed: set<Path>, q: Path)
    requires Ready(base, dev, newDev) && Mid(fs, base, newDev, done, removed)
    requires done <= Reached(base, dev, []) && removed <= done && (forall r | r in removed :: !base[r].Dir?)
    requires q in Reached(base, dev, []) && q !in done && (|q| > 1 ==> Parent(q) in done)
    ensures Parent(Dest(q)) == Dest(Parent(q))
    ensures IsDir(fs, Parent(Dest(q))) && fs[Parent(Dest(q))].dev == newDev
    ensures Dest(q) !in fs && q in fs && fs[q] == base[q] && !(NEW_ROOT < q)
  {
    assert Parent(Dest(q)) == Dest(Parent(q));
    if |q| > 1 {
      ReachedParent(base, dev, q);
    } else {
      assert Parent(Dest(q)) == NEW_ROOT;
      assert !(NEW_ROOT < NEW_ROOT);
    }
    assert !(NEW_ROOT < q);
  }

  /** What a directory of the old root lists does not change during the walks. */
  lemma NamesAreChildren(fs: FS, base: FS, newDev: nat, done: set<Path>, removed: set<Path>, path: Path, names: seq<Name>)
    requires Mid(fs, base, newDev, done, removed) && !(NEW_ROOT <= path)
    requires forall n: Name :: n in names <==> path + [n] in fs
    requires forall r | r in removed :: !(path < r)
    ensures forall n: Name :: n in names <==> path + [n] in base
  {
    forall n: Name
      ensures n in names <==> path + [n] in base
    {
      var c := path + [n];
      assert path < c && c[..|path|] == path;
      assert path != [] ==> c[0] == path[0];
      assert path == [] ==> |c| == 1;
    }
  }

  /** The walk has not been to the next child before. */
  lemma NotYet(base: FS, dev: nat, path: Path, names: seq<Name>, i: nat, done: set<Path>)
    requires i < |names| && forall j, k | 0 <= j < k < |names| :: names[j] != names[k]
    requires done !! (Reached(base, dev, path) - {path})
    ensures (done + Below(Reached(base, dev, []), path, names[..i])) !! Reached(base, dev, path + [names[i]])
  {
    var child := path + [names[i]];
    forall q | q in Reached(base, dev, child)
      ensures q !in done && q !in Below(Reached(base, dev, []), path, names[..i])
    {
      assert q[..|path|] == child[..|path|] == path;
      assert q[|path|] == names[i];
      assert q in Reached(base, dev, path);
    }
  }

  /** A finished copy stays good when only its metadata changes. */
  lemma MetadataSound(fs: FS, base: FS, dev: nat, p: Path, meta: Meta)
    requires Sound(fs, base, dev) && NEW_ROOT < p && p in fs
    requires forall q | q in base :: !(NEW_ROOT < q)
    ensures Sound(fs[p := WithMeta(fs[p], meta)], base, dev)
  {
    var t := fs[p := WithMeta(fs[p], meta)];
    forall r | r in Reached(base, dev, []) && base[r].File?
      ensures Kept(t, r, base[r])
    {
      assert Kept(fs, r, base[r]);
    }
  }

  /** An old file may go once its content is in the new tree. */
  lemma RemoveSound(fs: FS, base: FS, dev: nat, q: Path)
    requires Sound(fs, base, dev) && q in fs && q in base && base[q].File? && fs[q] == base[q] && q != []
    requires !(NEW_ROOT <= q)
    requires Dest(q) in fs && fs[Dest(q)].File? && fs[Dest(q)].content == base[q].content
    ensures Sound(fs - {q}, base, dev)
  {
    forall r | r in Reached(base, dev, []) && base[r].File?
      ensures Kept(fs - {q}, r, base[r])
    {
      assert Kept(fs, r, base[r]);
      assert NEW_ROOT <= Dest(r);
    }
  }

  /** After the copy of `q` the old file may be gone or not. */
  lemma MidMoved(fs: FS, t: FS, base: FS, newDev: nat, done: set<Path>, removed: set<Path>, q: Path, gone: bool)
    requires Mid(fs, base, newDev, done, removed) && q != [] && q in base && !(NEW_ROOT <= q)
    requires t == (if gone then fs - {q} else fs)[Dest(q) := Image(base[q], newDev)]
    ensures Mid(t, base, newDev, done + {q}, if gone then removed + {q} else removed)
  {
    MidAdd(fs, base, newDev, done, removed, q, Image(base[q], newDev));
    if gone {
      var u := fs[Dest(q) := Image(base[q], newDev)];
      assert NEW_ROOT <= Dest(q);
      assert t == u - {q};
      forall r: Path | r != []
        ensures Dest(r) in t <==> Dest(r) in u
      {
        assert NEW_ROOT <= Dest(r);
      }
    }
  }

  lemma MovedState(before: FS, copied: FS, after: FS, base: FS, newDev: nat, q: Path, gone: bool)
    requires q in base && base[q].File? && q != Dest(q)
    requires copied == before[Dest(q) := File(newDev, base[q].meta.(owner := 0), base[q].content)]
    requires after == (if gone then copied - {q} else copied)[Dest(q) := WithMeta(copied[Dest(q)], base[q].meta)]
    ensures after == (if gone then before - {q} else before)[Dest(q) := Image(base[q], newDev)]
  {
  }

  /** Between two steps of the second walk: all directories are made; `done` is copied. */
  ghost predicate Moving(fs: FS, base: FS, dev: nat, newDev: nat, done: set<Path>, removed: set<Path>) {
    && Mid(fs, base, newDev, done, removed)
    && Dirs(base, dev, []) <= done <= Reached(base, dev, [])
    && removed <= done && forall r | r in removed :: !base[r].Dir?
  }

  /** Files and links below `path`. */
  function Leaves(base: FS, dev: nat, path: Path): set<Path> {
    Reached(base, dev, path) - Dirs(base, dev, [])
  }

  predicate NoOthers(base: FS, dev: nat) { NoneOther(base, Reached(base, dev, [])) }

  predicate NoneOther(base: FS, paths: set<Path>) { forall q | q in paths :: q in base && !base[q].Other? }

  /** The regular files among these have been removed. */
  predicate FilesIn(base: FS, paths: set<Path>, removed: set<Path>) {
    forall q | q in paths && q in base && base[q].File? :: q in removed
  }

  /** No regular file of the root device is left on the old root. */
  predicate FilesGone(fs: FS, base: FS, dev: nat) {
    forall q | q in Reached(base, dev, []) && base[q].File? :: q !in fs
  }

  lemma ReachedHere(base: FS, dev: nat, path: Path)
    requires Visited(base, dev, path) && path != []
    ensures path in Reached(base, dev, []) && path in Reached(base, dev, path)
  {
  }

  /** The walk finds `path` as it was in the beginning. */
  lemma StillThere(fs: FS, base: FS, dev: nat, newDev: nat, done: set<Path>, removed: set<Path>, path: Path)
    requires Ready(base, dev, newDev) && Moving(fs, base, dev, newDev, done, removed)
    requires path != [] && Visited(base, dev, path) && Leaves(base, dev, path) !! done
    ensures path in fs && fs[path] == base[path] && !(NEW_ROOT < path)
    ensures !base[path].Dir? ==> path !in done && !(NEW_ROOT <= path)
    ensures forall r | r in removed :: !(path < r)
  {
    ReachedHere(base, dev, path);
    forall r | r in removed
      ensures !(path < r)
    {
      assert r in Reached(base, dev, path) ==> r in Leaves(base, dev, path);
    }
    assert NEW_ROOT <= path ==> path == NEW_ROOT;
  }

  lemma NotYetMoved(base: FS, dev: nat, path: Path, names: seq<Name>, i: nat, done: set<Path>)
    requires i < |names| && forall j, k | 0 <= j < k < |names| :: names[j] != names[k]
    requires done !! (Leaves(base, dev, path) - {path})
    ensures (done + Below(Reached(base, dev, []), path, names[..i])) !! Leaves(base, dev, path + [names[i]])
  {
    var child := path + [names[i]];
    forall q | q in Reached(base, dev, child)
      ensures q in Reached(base, dev, path) - {path} && q !in Below(Reached(base, dev, []), path, names[..i])
    {
      assert q[..|path|] == child[..|path|] == path;
      assert q[|path|] == names[i];
    }
  }

  // ---------------------------------------------------------------- the delete walk

  /** `p` is inside something mounted directly under `/`. */
  predicate OffRoot(fs: FS, p: Path, dev: nat) {
    p != [] && IsDir(fs, [p[0]]) && fs[[p[0]]].dev != dev
  }

  /** Nothing is new or changed since `start`, and what is mounted directly under `/` is all there. */
  predicate Spares(fs: FS, start: FS, dev: nat) {
    && (forall p | p in fs :: p in start && fs[p] == start[p])
    && (forall p | p in start && OffRoot(start, p, dev) :: p in fs)
  }

  /** Of the old root nothing is left but what is mounted directly under it. */
  predicate Bare(fs: FS, dev: nat) {
    forall p {:trigger OffRoot(fs, p, dev)} | p in fs && p != [] :: OffRoot(fs, p, dev)
  }

  lemma {:induction false} DeepestExists(todo: set<Path>)
    requires todo != {}
    ensures exists p :: p in todo && forall q | q in todo :: !(p < q)
  {
    var p :| p in todo;
    if q :| q in todo && p < q {
      assert q in todo - {p};
      DeepestExists(todo - {p});
      var d :| d in todo - {p} && forall r | r in todo - {p} :: !(d < r);
      forall r | r in todo
        ensures !(d < r)
      {
        if r != p {
          assert r in todo - {p};
        }
      }
    }
  }

  lemma {:induction false} TopIsThere(fs: FS, p: Path)
    requires WellFormed(fs) && p in fs && p != []
    ensures [p[0]] in fs
    decreases |p|
  {
    if |p| == 1 {
      assert p == [p[0]];
    } else {
      TopIsThere(fs, Parent(p));
    }
  }

  /** What is left under a name of the old root is mounted there. */
  predicate Settled(fs: FS, start: FS, dev: nat, n: Name) {
    forall p | p in fs && p != [] && p[0] == n :: OffRoot(start, p, dev)
  }

  predicate SettledUpTo(fs: FS, start: FS, dev: nat, names: seq<Name>, i: nat) {
    forall j | 0 <= j < i && j < |names| :: Settled(fs, start, dev, names[j])
  }

  lemma OneMoreSettled(before: FS, fs: FS, start: FS, dev: nat, names: seq<Name>, i: nat)
    requires i < |names| && SettledUpTo(before, start, dev, names, i) && Settled(fs, start, dev, names[i])
    requires forall p | p in fs :: p in before
    ensures SettledUpTo(fs, start, dev, names, i + 1)
  {
    forall j | 0 <= j < i
      ensures Settled(fs, start, dev, names[j])
    {
      assert Settled(before, start, dev, names[j]);
    }
  }

  lemma AllSettled(fs: FS, start: FS, dev: nat, names: seq<Name>)
    requires WellFormed(start) && Spares(fs, start, dev)
    requires forall n: Name | [n] in start :: n in names
    requires SettledUpTo(fs, start, dev, names, |names|)
    ensures Bare(fs, dev)
  {
    forall p | p in fs && p != []
      ensures OffRoot(fs, p, dev)
    {
      TopIsThere(start, p);
      assert OffRoot(start, [p[0]], dev);
    }
  }

  /** The new root, seen from inside, is exactly `tree`. */
  predicate NewRootIs(fs: FS, tree: FS) {
    && (forall p | p in fs && NEW_ROOT <= p :: p[1..] in tree && fs[p] == tree[p[1..]])
    && (forall q | q in tree :: Dest(q) in fs)
  }

  lemma SparedRoot(fs: FS, start: FS, dev: nat, tree: FS)
    requires Spares(fs, start, dev) && NewRootIs(start, tree) && OffRoot(start, NEW_ROOT, dev)
    ensures NewRootIs(fs, tree)
  {
    forall q | q in tree
      ensures Dest(q) in fs
    {
      assert OffRoot(start, Dest(q), dev);
    }
  }

  /** After the second walk the new root is the mirror of the old. */
  lemma MovedIsMirror(fs: FS, base: FS, dev: nat, newDev: nat, removed: set<Path>)
    requires Ready(base, dev, newDev) && Moving(fs, base, dev, newDev, Reached(base, dev, []), removed)
    ensures NewRootIs(fs, Mirror(base, dev, newDev)) && OffRoot(fs, NEW_ROOT, dev)
  {
    var tree := Mirror(base, dev, newDev);
    assert !(NEW_ROOT < NEW_ROOT);
    assert NEW_ROOT in base && NEW_ROOT !in removed;
    assert fs[NEW_ROOT] == base[NEW_ROOT] == Image(base[[]], newDev);
    forall p | p in fs && NEW_ROOT <= p
      ensures p[1..] in tree && fs[p] == tree[p[1..]]
    {
      var q := p[1..];
      assert p == Dest(q);
      assert q == [] ==> p == NEW_ROOT;
      assert q != [] ==> q in Reached(base, dev, []) && fs[Dest(q)] == Image(base[q], newDev);
    }
    forall q | q in tree
      ensures Dest(q) in fs
    {
      assert q == [] ==> Dest(q) == NEW_ROOT;
    }
  }

  /** What `/` shows once the new root has been moved there. */
  function Visible(fs: FS): FS {
    map q | q in (set p | p in fs && p != [] :: p[1..]) && Dest(q) in fs :: fs[Dest(q)]
  }

  lemma VisibleIs(fs: FS, tree: FS)
    requires NewRootIs(fs, tree)
    ensures Visible(fs) == tree
  {
    forall q | q in tree
      ensures q in Visible(fs) && Visible(fs)[q] == tree[q]
    {
      assert NEW_ROOT <= Dest(q) && Dest(q)[1..] == q;
    }
    forall q | q in Visible(fs)
      ensures q in tree
    {
      assert NEW_ROOT <= Dest(q) && Dest(q)[1..] == q;
    }
  }

  /** The system after the new root got the metadata of the old one: what all the walks go by. */
  function Base(fs: FS, newDev: nat): FS
    requires [] in fs
  {
    Mounted(fs, newDev, fs[[]].meta)
  }

  lemma BaseReady(fs: FS, newDev: nat)
    requires WellFormed(fs) && IsDir(fs, NEW_ROOT) && newDev != fs[[]].dev
    ensures var base := Base(fs, newDev); var dev := fs[[]].dev;
      && Ready(base, dev, newDev) && Sound(base, base, dev) && Mid(base, base, newDev, {}, {})
      && Visited(base, dev, [])
  {
    var base := Base(fs, newDev);
    forall p | p in base && p != []
      ensures IsDir(base, Parent(p))
    {
      assert NEW_ROOT <= Parent(p) ==> NEW_ROOT < p;
    }
    forall q: Path | q != []
      ensures Dest(q) !in base
    {
      assert NEW_ROOT < Dest(q);
    }
  }

  lemma UpdatedTwice(fs: FS, p: Path, a: Node, b: Node)
    ensures fs[p := a][p := b] == fs[p := b]
  {
  }

  lemma FileCreated(before: FS, fs: FS, q: Path, made: Node)
    requires q != [] && q in before && !(NEW_ROOT <= q) && IsDir(before, Parent(Dest(q)))
    requires fs == before[Dest(q) := made]
    ensures q in fs && fs[q] == before[q] && IsDir(fs, Parent(Dest(q))) && Dest(q) in fs && fs[Dest(q)] == made
  {
    assert NEW_ROOT < Dest(q) && |Parent(Dest(q))| != |Dest(q)|;
  }

  class Machine {
    /** Everything the system can see. */
    var fs: FS
    /** Every state since the walks began. */
    ghost var history: seq<FS>

    constructor (initial: FS)
      ensures fs == initial && history == []
    {
      fs := initial;
      history := [];
    }

    ghost predicate AllSound(base: FS, dev: nat)
      reads this
    {
      Sound(fs, base, dev) && forall h | h in history :: Sound(h, base, dev)
    }

    method Write(next: FS)
      modifies this
      ensures fs == next && history == old(history) + [next]
    {
      fs := next;
      history := history + [next];
    }

    /** Whether a system call that may fail does. */
    method Fails(mayFail: bool) returns (fails: bool)
      ensures fails ==> mayFail
    {
      fails := *;
      fails := fails && mayFail;
    }

    /** The names in a directory, each once. */
    method ReadDirNames(path: Path, mayFail: bool) returns (ok: bool, names: seq<Name>)
      ensures ok ==> forall n: Name :: n in names <==> path + [n] in fs
      ensures ok ==> forall i, j | 0 <= i < j < |names| :: names[i] != names[j]
      ensures !mayFail ==> ok
    {
      names := [];
      var fails := Fails(mayFail);
      if fails {
        return false, names;
      }
      ok := true;
      var todo := set p | p in fs && |p| == |path| + 1 && path <= p :: p[|path|];
      ghost var all := todo;
      assert forall n: Name | path + [n] in fs :: n in all by {
        forall n: Name | path + [n] in fs
          ensures n in all
        {
          var p := path + [n];
          assert p[|path|] == n && path <= p;
        }
      }
      assert forall n | n in all :: path + [n] in fs by {
        forall n | n in all
          ensures path + [n] in fs
        {
          var p :| p in fs && |p| == |path| + 1 && path <= p && p[|path|] == n;
          assert p == path + [n];
        }
      }
      while todo != {}
        invariant todo <= all && (forall n :: n in all <==> n in names || n in todo)
        invariant forall n | n in names :: n !in todo
        invariant forall i, j | 0 <= i < j < |names| :: names[i] != names[j]
        decreases todo
      {
        var n :| n in todo;
        names := names + [n];
        todo := todo - {n};
      }
    }

    /** `Mkdir`, `Symlink`, or opening a new file: the name must be free, its parent a directory. A new
        node is on its parent's device and owned by root. */
    method Create(p: Path, node: Node, mayFail: bool) returns (ok: bool)
      requires p != []
      modifies this
      ensures ok ==> p !in old(fs) && IsDir(old(fs), Parent(p))
      ensures ok ==> fs == old(fs)[p := Fresh(node, old(fs)[Parent(p)].dev)]
      ensures history == old(history) + (if ok then [fs] else [])
      ensures !ok ==> fs == old(fs)
      ensures !mayFail && p !in old(fs) && IsDir(old(fs), Parent(p)) ==> ok
    {
      var fails := Fails(mayFail);
      if fails || p in fs || !IsDir(fs, Parent(p)) {
        return false;
      }
      Write(fs[p := Fresh(node, fs[Parent(p)].dev)]);
      ok := true;
    }

    /** `copyMetadata`: owner, times and mode. */
    method CopyMetadata(meta: Meta, p: Path, mayFail: bool) returns (ok: bool)
      requires p in fs
      modifies this
      ensures ok ==> fs == old(fs)[p := WithMeta(old(fs)[p], meta)]
      ensures history == old(history) + (if ok then [fs] else [])
      ensures !ok ==> fs == old(fs)
      ensures !mayFail ==> ok
    {
      var fails := Fails(mayFail);
      if fails {
        return false;
      }
      Write(fs[p := WithMeta(fs[p], meta)]);
      ok := true;
    }

    /** A new node under the new root, at the place of `q`. */
    method CreateCopy(q: Path, node: Node, mayFail: bool, ghost base: FS, ghost dev: nat, ghost newDev: nat)
      returns (ok: bool)
      requires Ready(base, dev, newDev) && AllSound(base, dev)
      requires q != [] && q in base && q in fs && fs[q] == base[q] && !(NEW_ROOT < q)
      requires IsDir(fs, Parent(Dest(q))) && Dest(q) !in fs
      modifies this
      ensures AllSound(base, dev) && (!mayFail ==> ok)
      ensures ok ==> fs == old(fs)[Dest(q) := Fresh(node, old(fs)[Parent(Dest(q))].dev)]
    {
      ok := Create(Dest(q), node, mayFail);
      CopySound(old(fs), base, dev, newDev, q, Fresh(node, old(fs)[Parent(Dest(q))].dev));
    }

    /** First walk, one directory: make it and give it its metadata. */
    method MakeDir(q: Path, info: Node, mayFail: bool, ghost base: FS, ghost dev: nat, ghost newDev: nat, ghost done: set<Path>)
      returns (ok: bool)
      requires Ready(base, dev, newDev) && AllSound(base, dev)
      requires q in Dirs(base, dev, []) && info == base[q] && q !in done
      requires Mid(fs, base, newDev, done, {}) && done <= Dirs(base, dev, []) && (|q| > 1 ==> Parent(q) in done)
      modifies this
      ensures AllSound(base, dev) && (!mayFail ==> ok)
      ensures ok ==> Mid(fs, base, newDev, done + {q}, {})
    {
      ParentCopied(fs, base, dev, newDev, done, {}, q);
      ok := CreateCopy(q, info, mayFail, base, dev, newDev);
      if ok {
        var made := fs;
        ok := CopyMetadata(info.meta, Dest(q), mayFail);
        CopySound(made, base, dev, newDev, q, Image(info, newDev));
        if ok {
          assert fs == old(fs)[Dest(q) := Image(info, newDev)];
          MidAdd(old(fs), base, newDev, done, {}, q, Image(info, newDev));
        }
      }
    }

    /** First walk: `path` and everything below it. */
    method CopyDirs(path: Path, mayFail: bool, ghost base: FS, ghost dev: nat, ghost newDev: nat,
                    rootDev: nat, ghost done: set<Path>, ghost depth: nat)
      returns (ok: bool)
      requires Ready(base, dev, newDev) && AllSound(base, dev) && rootDev == dev
      requires path != [] && Visited(base, dev, path) && forall p | p in base :: |p| <= depth
      requires Mid(fs, base, newDev, done, {}) && done <= Dirs(base, dev, [])
      requires done !! Reached(base, dev, path) && (|path| > 1 ==> Parent(path) in done)
      modifies this
      ensures AllSound(base, dev) && (!mayFail ==> ok)
      ensures ok ==> Mid(fs, base, newDev, done + Dirs(base, dev, path), {})
      decreases depth - |path|, 1
    {
      assert !(NEW_ROOT < path) && path in fs && fs[path] == base[path];
      var info := fs[path];
      if !info.Dir? {
        FileIsLeaf(base, dev, path);
        assert done + Dirs(base, dev, path) == done;
        return true;
      }
      var names;
      ok, names := ReadDirNames(path, mayFail);
      if !ok {
        return;
      }
      ghost var before := fs;
      assert path in Dirs(base, dev, []) && path in Reached(base, dev, path);
      ok := MakeDir(path, info, mayFail, base, dev, newDev, done);
      if !ok {
        return;
      }
      if info.dev != rootDev {
        OffRootIsLeaf(base, dev, path);
        assert Dirs(base, dev, path) == {path};
        return;
      }
      assert NEW_ROOT <= path ==> path == NEW_ROOT;
      NamesAreChildren(before, base, newDev, done, {}, path, names);
      DirsSplit(base, dev, path, names);
      ok := CopyDirsIn(path, names, mayFail, base, dev, newDev, rootDev, done + {path}, depth);
      assert done + Dirs(base, dev, path) == done + {path} + Below(Dirs(base, dev, []), path, names);
    }

    /** First walk, the entries of one directory. */
    method CopyDirsIn(path: Path, names: seq<Name>, mayFail: bool, ghost base: FS, ghost dev: nat, ghost newDev: nat,
                      rootDev: nat, ghost done: set<Path>, ghost depth: nat)
      returns (ok: bool)
      requires Ready(base, dev, newDev) && AllSound(base, dev) && rootDev == dev
      requires Visited(base, dev, path) && IsDir(base, path) && base[path].dev == dev && forall p | p in base :: |p| <= depth
      requires forall n: Name :: n in names <==> path + [n] in base
      requires forall i, j | 0 <= i < j < |names| :: names[i] != names[j]
      requires Mid(fs, base, newDev, done, {}) && done <= Dirs(base, dev, [])
      requires done !! (Reached(base, dev, path) - {path}) && (path != [] ==> path in done)
      modifies this
      ensures AllSound(base, dev) && (!mayFail ==> ok)
      ensures ok ==> Mid(fs, base, newDev, done + Below(Dirs(base, dev, []), path, names), {})
      decreases depth - |path|, 0
    {
      ghost var all := Dirs(base, dev, []);
      assert done + Below(all, path, names[..0]) == done;
      var i := 0;
      while i < |names|
        invariant 0 <= i <= |names|
        invariant AllSound(base, dev)
        invariant Mid(fs, base, newDev, done + Below(all, path, names[..i]), {})
      {
        var child := path + [names[i]];
        assert names[i] in names;
        ChildVisited(base, dev, path, names[i]);
        NotYet(base, dev, path, names, i, done);
        BelowStep(all, path, names, i);
        var fails := Fails(mayFail); // Lstat
        if fails {
          return false;
        }
        assert Parent(child) == path;
        ok := CopyDirs(child, mayFail, base, dev, newDev, rootDev, done + Below(all, path, names[..i]), depth);
        if !ok {
          return;
        }
        assert done + Below(all, path, names[..i + 1]) == done + Below(all, path, names[..i]) + Dirs(base, dev, child);
        i := i + 1;
      }
      assert names[..i] == names;
      ok := true;
    }

    /** Copy the content of `q` chunk by chunk into its new, empty file. */
    method CopyContent(q: Path, content: string, mayFail: bool, ghost base: FS, ghost dev: nat, ghost newDev: nat)
      returns (ok: bool)
      requires Ready(base, dev, newDev) && AllSound(base, dev)
      requires q != [] && q in base && base[q].File? && content == base[q].content
      requires q in fs && fs[q] == base[q] && !(NEW_ROOT < q)
      requires IsDir(fs, Parent(Dest(q))) && Dest(q) in fs && fs[Dest(q)].File? && fs[Dest(q)].content == ""
      modifies this
      ensures AllSound(base, dev) && (!mayFail ==> ok)
      ensures ok ==> fs == old(fs)[Dest(q) := old(fs)[Dest(q)].(content := content)]
    {
      var k := 0;
      assert fs == fs[Dest(q) := fs[Dest(q)].(content := content[..0])];
      while k < |content|
        invariant 0 <= k <= |content| && AllSound(base, dev)
        invariant fs == old(fs)[Dest(q) := old(fs)[Dest(q)].(content := content[..k])]
      {
        var fails := Fails(mayFail);
        if fails {
          return false;
        }
        var next := if k + CHUNK < |content| then k + CHUNK else |content|;
        assert NEW_ROOT < Dest(q) && Parent(Dest(q)) != Dest(q);
        CopySound(fs, base, dev, newDev, q, fs[Dest(q)].(content := content[..next]));
        Write(fs[Dest(q) := fs[Dest(q)].(content := content[..next])]);
        k := next;
      }
      assert content[..k] == content;
      ok := true;
    }

    /** The copy of `q` is complete: remove the old file if that works, and set the metadata. */
    method FinishFile(q: Path, info: Node, mayFail: bool, mayResist: bool, ghost base: FS, ghost dev: nat)
      returns (ok: bool, ghost gone: bool)
      requires AllSound(base, dev) && q in base && info == base[q] && info.File? && q != []
      requires q in fs && fs[q] == base[q] && !(NEW_ROOT <= q) && forall p | p in base :: !(NEW_ROOT < p)
      requires Dest(q) in fs && fs[Dest(q)].File? && fs[Dest(q)].content == info.content
      modifies this
      ensures AllSound(base, dev) && (!mayFail ==> ok)
      ensures ok ==> fs == (if gone then old(fs) - {q} else old(fs))[Dest(q) := WithMeta(old(fs)[Dest(q)], info.meta)]
      ensures ok && !mayResist ==> gone
    {
      gone := false;
      assert NEW_ROOT < Dest(q);
      var fails := Fails(mayFail); // Close
      if fails {
        return false, gone;
      }
      var stays := Fails(mayResist);
      if !stays {
        RemoveSound(fs, base, dev, q);
        Write(fs - {q});
        gone := true;
      }
      MetadataSound(fs, base, dev, Dest(q), info.meta);
      ok := CopyMetadata(info.meta, Dest(q), mayFail);
    }

    /** A new file with the content of `q`. */
    method CopyFile(q: Path, info: Node, mayFail: bool, ghost base: FS, ghost dev: nat, ghost newDev: nat)
      returns (ok: bool)
      requires Ready(base, dev, newDev) && AllSound(base, dev)
      requires q in base && q != [] && info == base[q] && info.File?
      requires q in fs && fs[q] == base[q] && !(NEW_ROOT <= q)
      requires IsDir(fs, Parent(Dest(q))) && fs[Parent(Dest(q))].dev == newDev && Dest(q) !in fs
      modifies this
      ensures AllSound(base, dev) && (!mayFail ==> ok)
      ensures ok ==> fs == old(fs)[Dest(q) := File(newDev, info.meta.(owner := 0), info.content)]
    {
      ok := CreateCopy(q, info.(content := ""), mayFail, base, dev, newDev);
      if ok {
        var made := File(newDev, info.meta.(owner := 0), "");
        FileCreated(old(fs), fs, q, made);
        ok := CopyContent(q, info.content, mayFail, base, dev, newDev);
        UpdatedTwice(old(fs), Dest(q), made, made.(content := info.content));
      }
    }

    /** Second walk, a regular file: create, copy, remove the old one if that works, set the metadata. */
    method MoveFile(q: Path, info: Node, mayFail: bool, mayResist: bool, ghost base: FS, ghost dev: nat, ghost newDev: nat,
                    ghost done: set<Path>, ghost removed: set<Path>)
      returns (ok: bool, ghost gone: bool)
      requires Ready(base, dev, newDev) && AllSound(base, dev)
      requires q in Reached(base, dev, []) && info == base[q] && info.File? && q !in done
      requires q in fs && fs[q] == base[q] && !(NEW_ROOT <= q)
      requires IsDir(fs, Parent(Dest(q))) && fs[Parent(Dest(q))].dev == newDev && Dest(q) !in fs
      requires Mid(fs, base, newDev, done, removed)
      modifies this
      ensures AllSound(base, dev) && (!mayFail ==> ok)
      ensures ok ==> Mid(fs, base, newDev, done + {q}, if gone then removed + {q} else removed)
      ensures ok && !mayResist ==> gone
    {
      ghost var before := fs;
      ok := CopyFile(q, info, mayFail, base, dev, newDev);
      if !ok {
        return false, false;
      }
      ghost var copied := fs;
      ok, gone := FinishFile(q, info, mayFail, mayResist, base, dev);
      if ok {
        MovedState(before, copied, fs, base, newDev, q, gone);
        MidMoved(before, fs, base, newDev, done, removed, q, gone);
      }
    }

    /** Second walk, a link: make the same link in the new tree. The old one stays. */
    method MoveLink(q: Path, info: Node, mayFail: bool, ghost base: FS, ghost dev: nat, ghost newDev: nat,
                    ghost done: set<Path>, ghost removed: set<Path>)
      returns (ok: bool)
      requires Ready(base, dev, newDev) && AllSound(base, dev)
      requires q in Reached(base, dev, []) && info == base[q] && info.Link? && q !in done
      requires q in fs && fs[q] == base[q] && !(NEW_ROOT <= q)
      requires IsDir(fs, Parent(Dest(q))) && fs[Parent(Dest(q))].dev == newDev && Dest(q) !in fs
      requires Mid(fs, base, newDev, done, removed)
      modifies this
      ensures AllSound(base, dev) && (!mayFail ==> ok)
      ensures ok ==> Mid(fs, base, newDev, done + {q}, removed)
    {
      ghost var before := fs;
      ok := CreateCopy(q, info, mayFail, base, dev, newDev);
      if !ok {
        return;
      }
      FileCreated(before, fs, q, Fresh(info, newDev));
      MetadataSound(fs, base, dev, Dest(q), info.meta);
      ok := CopyMetadata(info.meta, Dest(q), mayFail);
      if ok {
        UpdatedTwice(before, Dest(q), Fresh(info, newDev), Image(info, newDev));
        MidMoved(before, fs, base, newDev, done, removed, q, false);
      }
    }

    /** Second walk, one file or link. */
    method MoveLeaf(path: Path, info: Node, mayFail: bool, mayResist: bool, ghost base: FS, ghost dev: nat, ghost newDev: nat,
                    ghost done: set<Path>, ghost removed: set<Path>)
      returns (ok: bool, ghost removed': set<Path>)
      requires Ready(base, dev, newDev) && AllSound(base, dev)
      requires path != [] && Visited(base, dev, path) && info == base[path] && !info.Dir?
      requires Moving(fs, base, dev, newDev, done, removed) && Leaves(base, dev, path) !! done
      modifies this
      ensures AllSound(base, dev) && (!mayFail && !info.Other? ==> ok)
      ensures removed <= removed' <= removed + {path}
      ensures ok ==> !info.Other? && (!mayResist && info.File? ==> path in removed')
      ensures ok ==> Moving(fs, base, dev, newDev, done + {path}, removed')
    {
      removed' := removed;
      ReachedHere(base, dev, path);
      StillThere(fs, base, dev, newDev, done, removed, path);
      if |path| > 1 {
        ReachedParent(base, dev, path);
      }
      ParentCopied(fs, base, dev, newDev, done, removed, path);
      if info.File? {
        ghost var gone;
        ok, gone := MoveFile(path, info, mayFail, mayResist, base, dev, newDev, done, removed);
        removed' := if ok && gone then removed + {path} else removed;
      } else if info.Link? {
        ok := MoveLink(path, info, mayFail, base, dev, newDev, done, removed);
      } else {
        ok := false; // sockets and unknown files end the walk
      }
    }

    /** Second walk: `path` and everything below it. */
    method MoveFiles(path: Path, mayFail: bool, mayResist: bool, ghost base: FS, ghost dev: nat, ghost newDev: nat,
                     rootDev: nat, ghost done: set<Path>, ghost removed: set<Path>, ghost depth: nat)
      returns (ok: bool, ghost removed': set<Path>)
      requires Ready(base, dev, newDev) && AllSound(base, dev) && rootDev == dev
      requires path != [] && Visited(base, dev, path) && forall p | p in base :: |p| <= depth
      requires Moving(fs, base, dev, newDev, done, removed) && Leaves(base, dev, path) !! done
      modifies this
      ensures AllSound(base, dev) && (!mayFail && NoOthers(base, dev) ==> ok)
      ensures ok ==> Moving(fs, base, dev, newDev, done + Reached(base, dev, path), removed')
      ensures removed <= removed' <= removed + Reached(base, dev, path)
      ensures ok ==> NoneOther(base, Reached(base, dev, path)) && (!mayResist ==> FilesIn(base, Reached(base, dev, path), removed'))
      decreases depth - |path|, 1
    {
      removed' := removed;
      ReachedHere(base, dev, path);
      StillThere(fs, base, dev, newDev, done, removed, path);
      var info := fs[path];
      if !info.Dir? {
        FileIsLeaf(base, dev, path);
        ok, removed' := MoveLeaf(path, info, mayFail, mayResist, base, dev, newDev, done, removed);
        return;
      }
      assert path in Dirs(base, dev, []);
      var names;
      ok, names := ReadDirNames(path, mayFail);
      if !ok {
        return;
      }
      if info.dev != rootDev {
        OffRootIsLeaf(base, dev, path);
        assert done + Reached(base, dev, path) == done;
        return;
      }
      assert NEW_ROOT <= path ==> path == NEW_ROOT;
      NamesAreChildren(fs, base, newDev, done, removed, path, names);
      ReachedSplits(base, dev, path, names);
      ok, removed' := MoveFilesIn(path, names, mayFail, mayResist, base, dev, newDev, rootDev, done, removed, depth);
      assert done + Reached(base, dev, path) == done + Below(Reached(base, dev, []), path, names);
    }

    /** Second walk, the entries of one directory. */
    method MoveFilesIn(path: Path, names: seq<Name>, mayFail: bool, mayResist: bool, ghost base: FS, ghost dev: nat, ghost newDev: nat,
                       rootDev: nat, ghost done: set<Path>, ghost removed: set<Path>, ghost depth: nat)
      returns (ok: bool, ghost removed': set<Path>)
      requires Ready(base, dev, newDev) && AllSound(base, dev) && rootDev == dev
      requires Visited(base, dev, path) && IsDir(base, path) && base[path].dev == dev && forall p | p in base :: |p| <= depth
      requires forall n: Name :: n in names <==> path + [n] in base
      requires forall i, j | 0 <= i < j < |names| :: names[i] != names[j]
      requires Moving(fs, base, dev, newDev, done, removed) && done !! (Leaves(base, dev, path) - {path})
      modifies this
      ensures AllSound(base, dev) && (!mayFail && NoOthers(base, dev) ==> ok)
      ensures ok ==> Moving(fs, base, dev, newDev, done + Below(Reached(base, dev, []), path, names), removed')
      ensures removed <= removed' <= removed + Below(Reached(base, dev, []), path, names)
      ensures var all := Below(Reached(base, dev, []), path, names);
        ok ==> NoneOther(base, all) && (!mayResist ==> FilesIn(base, all, removed'))
      decreases depth - |path|, 0
    {
      ghost var all := Reached(base, dev, []);
      removed' := removed;
      assert done + Below(all, path, names[..0]) == done;
      var i := 0;
      while i < |names|
        invariant 0 <= i <= |names|
        invariant AllSound(base, dev)
        invariant Moving(fs, base, dev, newDev, done + Below(all, path, names[..i]), removed')
        invariant removed <= removed' <= removed + Below(all, path, names[..i])
        invariant NoneOther(base, Below(all, path, names[..i]))
        invariant !mayResist ==> FilesIn(base, Below(all, path, names[..i]), removed')
      {
        var child := path + [names[i]];
        assert names[i] in names;
        ChildVisited(base, dev, path, names[i]);
        NotYetMoved(base, dev, path, names, i, done);
        BelowStep(all, path, names, i);
        assert Below(all, path, names[..i]) + Reached(base, dev, child) == Below(all, path, names[..i + 1]);
        assert Below(all, path, names[..i + 1]) <= Below(all, path, names);
        var fails := Fails(mayFail); // Lstat
        if fails {
          return false, removed';
        }
        ok, removed' := MoveFiles(child, mayFail, mayResist, base, dev, newDev, rootDev, done + Below(all, path, names[..i]), removed', depth);
        if !ok {
          return;
        }
        assert done + Below(all, path, names[..i]) + Reached(base, dev, child) == done + Below(all, path, names[..i + 1]);
        i := i + 1;
      }
      assert names[..i] == names;
      ok := true;
    }

    /** From then on what is mounted directly under `/` was spared. */
    ghost predicate SparedSince(since: seq<FS>, start: FS, dev: nat)
      reads this
    {
      && since <= history && Spares(fs, start, dev)
      && forall i | |since| <= i < |history| :: Spares(history[i], start, dev)
    }

    /** The last thing recorded is an old root with nothing left to delete. */
    ghost predicate LeftBare(dev: nat)
      reads this
    {
      history != [] && Bare(history[|history| - 1], dev)
    }

    /** From then on the new root was `tree`. */
    ghost predicate RootSince(since: seq<FS>, tree: FS)
      reads this
    {
      since <= history && forall i | |since| <= i < |history| :: NewRootIs(history[i], tree)
    }

    lemma SparedMeansRoot(since: seq<FS>, start: FS, dev: nat, tree: FS)
      requires SparedSince(since, start, dev) && NewRootIs(start, tree) && OffRoot(start, NEW_ROOT, dev)
      ensures RootSince(since, tree)
    {
      forall i | |since| <= i < |history|
        ensures NewRootIs(history[i], tree)
      {
        SparedRoot(history[i], start, dev, tree);
      }
    }

    lemma SparedOn(since: seq<FS>, mid: seq<FS>, start: FS, dev: nat)
      requires since <= mid && forall i | |since| <= i < |mid| :: Spares(mid[i], start, dev)
      requires SparedSince(mid, start, dev)
      ensures SparedSince(since, start, dev)
    {
      forall i | |since| <= i < |history|
        ensures Spares(history[i], start, dev)
      {
        assert i < |mid| ==> history[i] == mid[i];
      }
    }

    /** `os.RemoveAll`: an empty directory or a file at a time, from the bottom; anything may resist. */
    method RemoveAll(path: Path, mayResist: bool, ghost start: FS, ghost dev: nat)
      requires Spares(fs, start, dev) && |path| == 1 && path in start && !OffRoot(start, path, dev)
      modifies this
      ensures SparedSince(old(history), start, dev)
      ensures forall p | p in old(fs) && !(path <= p) :: p in fs
      ensures forall p | p in fs :: p in old(fs)
      ensures !mayResist ==> forall p | p in fs :: !(path <= p)
    {
      var todo := set p | p in fs && path <= p;
      while todo != {}
        invariant SparedSince(old(history), start, dev)
        invariant forall p | p in old(fs) && !(path <= p) :: p in fs
        invariant forall p | p in fs :: p in old(fs)
        invariant forall p | p in todo :: path <= p
        invariant !mayResist ==> forall p | p in fs && path <= p :: p in todo
        decreases todo
      {
        DeepestExists(todo);
        var p :| p in todo && forall q | q in todo :: !(p < q);
        todo := todo - {p};
        var resists := Fails(mayResist);
        if !resists && p in fs && forall q | q in fs :: q == p || !(p <= q) {
          assert path == [p[0]];
          Write(fs - {p});
        }
      }
    }

    /** Third walk, one entry of `/`: anything but a mounted directory is deleted, if it can be. */
    method DeleteEntry(name: Name, rootDev: nat, mayResist: bool, ghost start: FS)
      requires Spares(fs, start, rootDev) && [name] in fs
      modifies this
      ensures SparedSince(old(history), start, rootDev)
      ensures forall p | p in old(fs) && !([name] <= p) :: p in fs
      ensures forall p | p in fs :: p in old(fs)
      ensures !mayResist ==> Settled(fs, start, rootDev, name)
    {
      var path := [name];
      if !(fs[path].Dir? && fs[path].dev != rootDev) {
        RemoveAll(path, mayResist, start, rootDev);
      }
      forall p | p in fs && p != [] && p[0] == name
        ensures path <= p
      {
      }
    }

    /** Third walk: try to delete everything under `/` that is not a mounted directory. */
    method DeleteWalk(rootDev: nat, mayFail: bool, mayResist: bool) returns (ok: bool)
      requires WellFormed(fs)
      modifies this
      ensures SparedSince(old(history), old(fs), rootDev)
      ensures ok && !mayResist ==> Bare(fs, rootDev)
      ensures !mayFail ==> ok
    {
      ghost var start, since := fs, history;
      var names;
      ok, names := ReadDirNames([], mayFail);
      if !ok {
        return;
      }
      assert forall n: Name :: [] + [n] == [n];
      var i := 0;
      while i < |names|
        invariant 0 <= i <= |names|
        invariant SparedSince(since, start, rootDev)
        invariant forall j | i <= j < |names| :: [names[j]] in fs
        invariant !mayResist ==> SettledUpTo(fs, start, rootDev, names, i)
      {
        var fails := Fails(mayFail); // Lstat
        if fails {
          return false;
        }
        ghost var before, left := history, fs;
        forall j | i < j < |names|
          ensures !([names[i]] <= [names[j]])
        {
          assert [names[j]][0] != [names[i]][0];
        }
        DeleteEntry(names[i], rootDev, mayResist, start);
        SparedOn(since, before, start, rootDev);
        if !mayResist {
          OneMoreSettled(left, fs, start, rootDev, names, i);
        }
        i := i + 1;
      }
      ok := true;
      if !mayResist {
        AllSettled(fs, start, rootDev, names);
      }
    }

    /** First walk, from the root: the new root has just got the old one's metadata. */
    method CopyRoot(names: seq<Name>, mayFail: bool, ghost base: FS, ghost newDev: nat, rootDev: nat, ghost depth: nat)
      returns (ok: bool)
      requires Ready(base, rootDev, newDev) && fs == base && history == [] && forall p | p in base :: |p| <= depth
      requires Sound(base, base, rootDev) && Mid(base, base, newDev, {}, {}) && Visited(base, rootDev, [])
      requires forall n: Name :: n in names <==> [n] in base
      requires forall i, j | 0 <= i < j < |names| :: names[i] != names[j]
      modifies this
      ensures AllSound(base, rootDev) && (!mayFail ==> ok)
      ensures ok ==> Mid(fs, base, newDev, Dirs(base, rootDev, []), {})
    {
      assert forall n: Name :: [] + [n] == [n];
      ok := CopyDirsIn([], names, mayFail, base, rootDev, newDev, rootDev, {}, depth);
      ReachedSplits(base, rootDev, [], names);
      forall q
        ensures q in Below(Dirs(base, rootDev, []), [], names) <==> q in Dirs(base, rootDev, [])
      {
        assert q in Reached(base, rootDev, []) - {[]} <==> q in Below(Reached(base, rootDev, []), [], names);
      }
      assert {} + Below(Dirs(base, rootDev, []), [], names) == Dirs(base, rootDev, []);
    }

    /** Third walk and after: delete, then make the new root `/`. */
    method Pivot(mayFail: bool, mayResist: bool, rootDev: nat, ghost tree: FS) returns (ok: bool)
      requires WellFormed(fs) && NewRootIs(fs, tree) && OffRoot(fs, NEW_ROOT, rootDev)
      modifies this
      ensures RootSince(old(history), tree)
      ensures ok && !mayResist ==> |history| > |old(history)| && LeftBare(rootDev)
      ensures ok ==> fs == tree
      ensures !mayFail ==> ok
    {
      ghost var start := fs;
      var fails := Fails(mayFail); // chdir
      if fails {
        return false;
      }
      ok := DeleteWalk(rootDev, mayFail, mayResist);
      SparedRoot(fs, start, rootDev, tree);
      SparedMeansRoot(old(history), start, rootDev, tree);
      history := history + [fs];
      if !ok {
        return;
      }
      ok := MoveToRoot(mayFail, tree);
    }

    /** Move the mount point of the new root to `/` and change to it. */
    method MoveToRoot(mayFail: bool, ghost tree: FS) returns (ok: bool)
      requires NewRootIs(fs, tree)
      modifies this`fs
      ensures ok ==> fs == tree
      ensures !mayFail ==> ok
    {
      VisibleIs(fs, tree);
      var fails := Fails(mayFail); // mount --move, chroot, chdir
      ok := !fails;
      if ok {
        fs := Visible(fs);
      }
    }

    /** Mount the new root, list `/`, and give the new root the metadata of the old one. */
    method MountNewRoot(newDev: nat, tmpfs: Meta, mayFail: bool) returns (ok: bool, names: seq<Name>)
      requires WellFormed(fs) && IsDir(fs, NEW_ROOT) && newDev != fs[[]].dev
      modifies this
      ensures history == old(history) && (!mayFail ==> ok)
      ensures ok ==> fs == Base(old(fs), newDev)
      ensures ok ==> forall n: Name :: n in names <==> [n] in Base(old(fs), newDev)
      ensures ok ==> forall i, j | 0 <= i < j < |names| :: names[i] != names[j]
    {
      names := [];
      var fails := Fails(mayFail); // stat, mount
      if fails {
        return false, names;
      }
      fs := Mounted(fs, newDev, tmpfs);
      ok, names := ReadDirNames([], mayFail);
      if !ok {
        return;
      }
      assert forall n: Name :: n in names <==> [n] in fs by {
        assert forall n: Name :: [] + [n] == [n];
      }
      fails := Fails(mayFail); // chmod, chown
      if fails {
        return false, names;
      }
      fs := fs[NEW_ROOT := Dir(newDev, fs[[]].meta)];
    }

    /** The first two walks. */
    method MoveTree(newDev: nat, tmpfs: Meta, mayFail: bool, mayResist: bool, ghost base: FS, rootDev: nat) returns (ok: bool)
      requires WellFormed(fs) && IsDir(fs, NEW_ROOT) && newDev != fs[[]].dev == rootDev && history == []
      requires base == Base(fs, newDev)
      modifies this
      ensures forall h | h in history :: Sound(h, base, rootDev)
      ensures ok ==> WellFormed(fs) && NewRootIs(fs, Mirror(base, rootDev, newDev)) && OffRoot(fs, NEW_ROOT, rootDev)
      ensures ok ==> Sound(fs, base, rootDev) && NoOthers(base, rootDev) && (!mayResist ==> FilesGone(fs, base, rootDev))
      ensures !mayFail && NoOthers(base, rootDev) ==> ok
    {
      BaseReady(fs, newDev);
      var names;
      ok, names := MountNewRoot(newDev, tmpfs, mayFail);
      if !ok {
        return;
      }
      ghost var depth := MaxLength(base.Keys);
      ok := CopyRoot(names, mayFail, base, newDev, rootDev, depth);
      if ok {
        ghost var removed;
        ok, removed := MoveRoot(mayFail, mayResist, base, rootDev, newDev, rootDev, depth);
        if ok {
          MovedIsMirror(fs, base, rootDev, newDev, removed);
        }
      }
    }

    /** `copyFS("/mnt")`. `moved` is how many states precede the delete walk. */
    method CopyFS(newDev: nat, tmpfs: Meta, mayFail: bool, mayResist: bool) returns (ok: bool, ghost moved: nat)
      requires WellFormed(fs) && IsDir(fs, NEW_ROOT) && newDev != fs[[]].dev && history == []
      modifies this
      ensures ok ==> fs == Mirror(Base(old(fs), newDev), old(fs)[[]].dev, newDev)
      ensures ok ==> NoOthers(Base(old(fs), newDev), old(fs)[[]].dev)
      ensures !mayFail && NoOthers(Base(old(fs), newDev), old(fs)[[]].dev) ==> ok
      ensures moved <= |history|
      ensures ok && !mayResist ==> moved < |history| && LeftBare(old(fs)[[]].dev)
      ensures ok && !mayResist ==> moved > 0 && FilesGone(history[moved - 1], Base(old(fs), newDev), old(fs)[[]].dev)
      ensures forall h | h in history[..moved] :: Sound(h, Base(old(fs), newDev), old(fs)[[]].dev)
      ensures RootSince(history[..moved], Mirror(Base(old(fs), newDev), old(fs)[[]].dev, newDev))
    {
      var rootDev := fs[[]].dev;
      ghost var base := Base(fs, newDev);
      ok := MoveTree(newDev, tmpfs, mayFail, mayResist, base, rootDev);
      if ok {
        history := history + [fs]; // the walks are done
      }
      moved := |history|;
      if ok {
        ghost var before := history;
        ok := Pivot(mayFail, mayResist, rootDev, Mirror(base, rootDev, newDev));
        assert history[..moved] == before;
      }
    }

    /** Second walk, from the root. */
    method MoveRoot(mayFail: bool, mayResist: bool, ghost base: FS, ghost dev: nat, ghost newDev: nat, rootDev: nat, ghost depth: nat)
      returns (ok: bool, ghost removed: set<Path>)
      requires Ready(base, dev, newDev) && AllSound(base, dev) && rootDev == dev && forall p | p in base :: |p| <= depth
      requires Mid(fs, base, newDev, Dirs(base, dev, []), {})
      modifies this
      ensures AllSound(base, dev) && (!mayFail && NoOthers(base, dev) ==> ok)
      ensures ok ==> Moving(fs, base, dev, newDev, Reached(base, dev, []), removed)
      ensures ok ==> NoOthers(base, dev) && (!mayResist ==> FilesGone(fs, base, dev))
    {
      removed := {};
      var names;
      ok, names := ReadDirNames([], mayFail);
      if !ok {
        return;
      }
      NamesAreChildren(fs, base, newDev, Dirs(base, dev, []), {}, [], names);
      ReachedSplits(base, dev, [], names);
      ok, removed := MoveFilesIn([], names, mayFail, mayResist, base, dev, newDev, rootDev, Dirs(base, dev, []), {}, depth);
      assert Dirs(base, dev, []) + Below(Reached(base, dev, []), [], names) == Reached(base, dev, []);
    }
  }

  /** The walks of the mounted system get to what they would have got to in the old one. */
  lemma SameVisits(fs: FS, newDev: nat, q: Path)
    requires WellFormed(fs) && IsDir(fs, NEW_ROOT) && newDev != fs[[]].dev && q in fs && !(NEW_ROOT < q)
    ensures var base := Base(fs, newDev);
      q in base && (Visited(base, fs[[]].dev, q) <==> Visited(fs, fs[[]].dev, q)) && (q != NEW_ROOT ==> base[q] == fs[q])
  {
    forall i | 0 <= i < |q|
      ensures NEW_ROOT <= q[..i] ==> NEW_ROOT < q
    {
    }
  }

  /** The copy is a tree, and what is mounted elsewhere has nothing below it. */
  lemma MirrorIsTree(base: FS, dev: nat, newDev: nat)
    requires Ready(base, dev, newDev)
    ensures WellFormed(Mirror(base, dev, newDev))
    ensures forall q, p | q in Mirror(base, dev, newDev) && p in Mirror(base, dev, newDev) && q < p :: base[q].dev == dev
  {
    var tree := Mirror(base, dev, newDev);
    forall q | q in tree && q != []
      ensures IsDir(tree, Parent(q))
    {
      if |q| > 1 {
        ReachedParent(base, dev, q);
      } else {
        assert Parent(q) == [];
      }
    }
    forall q, p | q in tree && p in tree && q < p
      ensures base[q].dev == dev
    {
      assert p[..|q|] == q;
    }
  }

  /** What the new root is, in terms of the old system: a well-formed tree that holds exactly the
      root-device part, each node as it was; everything mounted elsewhere is an empty directory, `/mnt`
      too, which takes on the metadata of `/`. */
  lemma MirrorOfOldRoot(fs: FS, newDev: nat)
    requires WellFormed(fs) && IsDir(fs, NEW_ROOT) && newDev != fs[[]].dev
    ensures var dev := fs[[]].dev; var tree := Mirror(Base(fs, newDev), dev, newDev);
      && WellFormed(tree)
      && (forall q: Path :: q in tree <==> q in fs && !(NEW_ROOT < q) && Visited(fs, dev, q))
      && (forall q | q in tree && q != NEW_ROOT :: tree[q] == Image(fs[q], newDev))
      && NEW_ROOT in tree && tree[NEW_ROOT] == Dir(newDev, fs[[]].meta)
      && (forall q, p | q in tree && p in tree && (q == NEW_ROOT || fs[q].dev != dev) :: !(q < p))
  {
    var dev := fs[[]].dev;
    var base := Base(fs, newDev);
    BaseReady(fs, newDev);
    MirrorIsTree(base, dev, newDev);
    forall q: Path | q in fs && !(NEW_ROOT < q) {
      SameVisits(fs, newDev, q);
    }
    assert [] in base && !(NEW_ROOT < []) && !(NEW_ROOT < NEW_ROOT);
  }
}
