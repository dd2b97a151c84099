/** The version directories of one component (for example `k3s`) on a MaculaOS system partition, and the
    switch to a new version: `StatComponentVersion` and `CopyComponent` of pkg/system/component.go.

    A component directory holds one real directory per version and the links `current` and `previous`.
    The steps of the switch are functions on a `World` (what is on disk, and the log of every state the
    disk has been in); any step may be made to fail through `Faults`. The class `ComponentDir` performs
    the same steps in place and is proved to follow them. */
module Component {
  import opened Text

  type Name = string

  /** File contents below a version directory, by relative path. */
  type Tree = map<string, string>

  datatype Node = Dir(mode: nat, tree: Tree) | File(data: string) | Link(target: Name)

  type Entries = map<Name, Node>

  const CURRENT: Name := "current"
  const PREVIOUS: Name := "previous"
  const CURRENT_TMP: Name := "current.tmp"

  /** Linux gives up after following this many links. */
  const MAX_LINKS: nat := 40

  function Old(v: Name): Name { v + ".old" }

  datatype Event = Remounted | Wrote(entries: Entries)

  /** The disk now, and everything that happened to it so far, oldest first. */
  datatype World = World(entries: Entries, log: seq<Event>) {
    function Write(e: Entries): World {
      World(e, log + [Wrote(e)])
    }
  }

  datatype Result = Result(w: World, ok: bool)

  /** Which steps fail, and what can be seen on disk while a directory is copied or removed piecemeal. */
  datatype Faults = Faults(
    statSrc: bool, statDst: bool, remount: bool, symlink: bool,
    tempDir: bool, suffix: Digits,
    copyPartial: seq<Tree>, copy: bool, copyChmod: bool,
    statDest: bool, moveAside: bool, removeFile: bool,
    place: bool, chmod: bool, removePrevious: bool, copyPrevious: bool, switch: bool,
    undoMove: bool, wipePartial: seq<Tree>, wipe: bool, undoLink: bool)

  // ---------------------------------------------------------------- reading

  /** `os.Stat`: follow links to a node that is not a link. */
  function Stat(e: Entries, name: Name, fuel: nat := MAX_LINKS): Option<Node>
    decreases fuel
  {
    if name !in e then None
    else if !e[name].Link? then Some(e[name])
    else if fuel == 0 then None
    else Stat(e, e[name].target, fuel - 1)
  }

  predicate StatIsDir(e: Entries, name: Name) {
    Stat(e, name).Some? && Stat(e, name).value.Dir?
  }

  /** `StatComponentVersion`: the version a link names, if the link and the version lead to a directory. */
  function ComponentVersion(e: Entries, alias: Name): Option<Name> {
    if StatIsDir(e, alias) && e[alias].Link? && StatIsDir(e, e[alias].target)
    then Some(e[alias].target)
    else None
  }

  // ---------------------------------------------------------------- single steps

  function Symlink(w: World, target: Name, name: Name, fault: bool): Result {
    if fault || name in w.entries then Result(w, false)
    else Result(w.Write(w.entries[name := Link(target)]), true)
  }

  /** A new empty directory, mode 0700. A taken name stands for running out of attempts. */
  function MkdirTemp(w: World, name: Name, fault: bool): Result {
    if fault || name in w.entries then Result(w, false)
    else Result(w.Write(w.entries[name := Dir(0x1c0, map[])]), true)
  }

  /** A directory whose contents change file by file: one disk state per element of `partial`. */
  function Churn(w: World, name: Name, mode: nat, partial: seq<Tree>): World
    decreases |partial|
  {
    if partial == [] then w
    else Churn(w.Write(w.entries[name := Dir(mode, partial[0])]), name, mode, partial[1..])
  }

  /** Copy the directory `src` into the existing directory `name`. The mode is set last, ignoring errors. */
  function CopyInto(w: World, src: Node, name: Name, f: Faults): Result
    requires name in w.entries && w.entries[name].Dir?
  {
    if !src.Dir? then Result(w, false) // a link or file cannot replace the temporary directory
    else
      var w1 := Churn(w, name, w.entries[name].mode, f.copyPartial);
      ChurnFrame(w, name, w.entries[name].mode, f.copyPartial);
      var n1 := w1.entries[name];
      var n2 := if f.copy then n1 else n1.(tree := src.tree);
      var n3 := if f.copyChmod then n2 else n2.(mode := src.mode);
      var w2 := w1.Write(w1.entries[name := n2]);
      Result(w2.Write(w2.entries[name := n3]), !f.copy)
  }

  /** Go's `os.Rename`: refuses an existing directory as the new name. */
  function Rename(w: World, from: Name, to: Name, fault: bool): Result {
    if fault || from !in w.entries then Result(w, false)
    else if to in w.entries && (w.entries[to].Dir? || w.entries[from].Dir?) then Result(w, false)
    else Result(w.Write((w.entries - {from})[to := w.entries[from]]), true)
  }

  /** `os.Remove`: a file, a link, or an empty directory. */
  function Remove(w: World, name: Name, fault: bool): Result {
    if fault || name !in w.entries || (w.entries[name].Dir? && w.entries[name].tree != map[]) then Result(w, false)
    else Result(w.Write(w.entries - {name}), true)
  }

  function RemoveAll(w: World, name: Name, f: Faults): World {
    if name !in w.entries then w
    else
      var w1 := if w.entries[name].Dir? then Churn(w, name, w.entries[name].mode, f.wipePartial) else w;
      if f.wipe then w1 else w1.Write(w1.entries - {name})
  }

  function Chmod(w: World, name: Name, mode: nat, fault: bool): World {
    if fault || name !in w.entries || !w.entries[name].Dir? then w
    else w.Write(w.entries[name := w.entries[name].(mode := mode)])
  }

  /** `copy.Copy` of the `current` link: makes a link with the same target, unless the name is taken. */
  function CopyLink(w: World, from: Name, to: Name, fault: bool): World {
    if fault || from !in w.entries || to in w.entries then w
    else w.Write(w.entries[to := w.entries[from]])
  }

  // ---------------------------------------------------------------- the switch

  /** What one call did: the world it left, what it returned, and whether the new version directory
      was renamed into place. */
  datatype Outcome = Outcome(w: World, copied: bool, ok: bool, placed: bool)

  function Failed(w: World): Outcome { Outcome(w, false, false, false) }

  /** Rename the copy into place, then turn `current` into `previous` and the new link into `current`. */
  function Switch(w: World, v: Name, mode: nat, tmp: Name, f: Faults): Outcome {
    var p := Rename(w, tmp, v, f.place);
    if !p.ok then Failed(p.w)
    else
      var c := Chmod(p.w, v, mode, f.chmod);
      var r := Remove(c, PREVIOUS, f.removePrevious);
      var l := CopyLink(r.w, CURRENT, PREVIOUS, f.copyPrevious);
      var s := Rename(l, CURRENT_TMP, CURRENT, f.switch);
      Outcome(s.w, s.ok, s.ok, true)
  }

  /** Move an existing version directory aside for the duration of the switch. */
  function MoveAside(w: World, v: Name, mode: nat, tmp: Name, f: Faults): Outcome {
    if f.statDest || Stat(w.entries, v).None? then Switch(w, v, mode, tmp, f)
    else if StatIsDir(w.entries, v) then
      var m := Rename(w, v, Old(v), f.moveAside);
      if !m.ok then Failed(m.w)
      else
        var s := Switch(m.w, v, mode, tmp, f);
        s.(w := Rename(s.w, Old(v), v, f.undoMove).w)
    else
      Switch(Remove(w, v, f.removeFile).w, v, mode, tmp, f)
  }

  /** Copy the source version into a temporary directory, removed again at the end. */
  function WithTemp(w: World, v: Name, src: Node, mode: nat, f: Faults): Outcome {
    var tmp := v + f.suffix;
    var t := MkdirTemp(w, tmp, f.tempDir);
    if !t.ok then Failed(t.w)
    else
      var c := CopyInto(t.w, src, tmp, f);
      var s := if c.ok then MoveAside(c.w, v, mode, tmp, f) else Failed(c.w);
      s.(w := RemoveAll(s.w, tmp, f))
  }

  /** Make the next `current` link under a temporary name, removed again at the end. */
  function WithLink(w: World, v: Name, src: Node, mode: nat, f: Faults): Outcome {
    var l := Symlink(w, v, CURRENT_TMP, f.symlink);
    if !l.ok then Failed(l.w)
    else
      var s := WithTemp(l.w, v, src, mode, f);
      s.(w := Remove(s.w, CURRENT_TMP, f.undoLink).w)
  }

  /** `CopyComponent`. */
  function Copy(w: World, src: Entries, remount: bool, f: Faults): Outcome {
    var version := ComponentVersion(src, CURRENT);
    if f.statSrc || version.None? then Failed(w)
    else
      var v := version.value;
      if !f.statDst && ComponentVersion(w.entries, CURRENT) == Some(v) then Outcome(w, false, true, false)
      else if remount && f.remount then Failed(w)
      else
        var w1 := if remount then World(w.entries, w.log + [Remounted]) else w;
        WithLink(w1, v, src[v], Stat(src, v).value.mode, f)
  }

  // ---------------------------------------------------------------- frame lemmas

  lemma {:induction false} ChurnFrame(w: World, name: Name, mode: nat, partial: seq<Tree>)
    requires name in w.entries && w.entries[name].Dir?
    ensures var w1 := Churn(w, name, mode, partial);
      SameBut(w1.entries, w.entries, {name}) && name in w1.entries && w1.entries[name].Dir?
    decreases |partial|
  {
    if partial == [] {
    } else {
      ChurnFrame(w.Write(w.entries[name := Dir(mode, partial[0])]), name, mode, partial[1..]);
    }
  }

  lemma NamesDiffer(v: Name, suffix: Digits)
    ensures v + suffix !in {CURRENT, PREVIOUS, CURRENT_TMP, v, Old(v)}
    ensures Old(v) !in {CURRENT, PREVIOUS, CURRENT_TMP, v}
  {
    var tmp := v + suffix;
    assert '0' <= tmp[|tmp| - 1] <= '9';
    assert Old(v)[|Old(v)| - 1] == 'd';
  }

  // ---------------------------------------------------------------- the log

  function LastWritten(e: Entries, log: seq<Event>): Entries {
    if log == [] then e
    else if log[|log| - 1].Wrote? then log[|log| - 1].entries
    else LastWritten(e, log[..|log| - 1])
  }

  /** `w` came from `from` by writes that were all logged. */
  predicate Logged(from: World, w: World) {
    && from.log <= w.log
    && (w == from || (|w.log| > |from.log| && w.log[|w.log| - 1] == Wrote(w.entries)))
    && forall i | |from.log| <= i < |w.log| :: w.log[i].Wrote?
  }

  lemma {:induction false} ChurnLogged(w: World, name: Name, mode: nat, partial: seq<Tree>)
    ensures Logged(w, Churn(w, name, mode, partial))
    decreases |partial|
  {
    if partial == [] {
    } else {
      ChurnLogged(w.Write(w.entries[name := Dir(mode, partial[0])]), name, mode, partial[1..]);
    }
  }

  lemma StepsLogged(w: World, a: Name, b: Name, mode: nat, fault: bool)
    ensures Logged(w, Rename(w, a, b, fault).w)
    ensures Logged(w, Chmod(w, a, mode, fault))
    ensures Logged(w, Remove(w, a, fault).w)
    ensures Logged(w, CopyLink(w, a, b, fault))
  {
  }

  lemma SwitchLogged(w: World, v: Name, mode: nat, tmp: Name, f: Faults)
    ensures Logged(w, Switch(w, v, mode, tmp, f).w)
  {
    var p := Rename(w, tmp, v, f.place);
    StepsLogged(w, tmp, v, mode, f.place);
    if p.ok {
      var c := Chmod(p.w, v, mode, f.chmod);
      StepsLogged(p.w, v, v, mode, f.chmod);
      LoggedThen(w, p.w, c);
      var r := Remove(c, PREVIOUS, f.removePrevious).w;
      StepsLogged(c, PREVIOUS, v, mode, f.removePrevious);
      LoggedThen(w, c, r);
      var l := CopyLink(r, CURRENT, PREVIOUS, f.copyPrevious);
      StepsLogged(r, CURRENT, PREVIOUS, mode, f.copyPrevious);
      LoggedThen(w, r, l);
      var s := Rename(l, CURRENT_TMP, CURRENT, f.switch).w;
      StepsLogged(l, CURRENT_TMP, CURRENT, mode, f.switch);
      LoggedThen(w, l, s);
    }
  }

  lemma LoggedThen(a: World, b: World, c: World)
    requires Logged(a, b) && Logged(b, c)
    ensures Logged(a, c)
  {
  }

  lemma MoveAsideLogged(w: World, v: Name, mode: nat, tmp: Name, f: Faults)
    ensures Logged(w, MoveAside(w, v, mode, tmp, f).w)
  {
    if f.statDest || Stat(w.entries, v).None? {
      SwitchLogged(w, v, mode, tmp, f);
    } else if StatIsDir(w.entries, v) {
      var m := Rename(w, v, Old(v), f.moveAside);
      if m.ok {
        SwitchLogged(m.w, v, mode, tmp, f);
        var s := Switch(m.w, v, mode, tmp, f).w;
        LoggedThen(w, m.w, s);
        LoggedThen(w, s, Rename(s, Old(v), v, f.undoMove).w);
      }
    } else {
      var r := Remove(w, v, f.removeFile).w;
      SwitchLogged(r, v, mode, tmp, f);
      LoggedThen(w, r, Switch(r, v, mode, tmp, f).w);
    }
  }

  lemma CopyIntoLogged(w: World, src: Node, name: Name, f: Faults)
    requires name in w.entries && w.entries[name].Dir?
    ensures Logged(w, CopyInto(w, src, name, f).w)
  {
    var mode := w.entries[name].mode;
    ChurnLogged(w, name, mode, f.copyPartial);
    ChurnFrame(w, name, mode, f.copyPartial);
  }

  lemma RemoveAllLogged(w: World, name: Name, f: Faults)
    ensures Logged(w, RemoveAll(w, name, f))
  {
    if name in w.entries && w.entries[name].Dir? {
      ChurnLogged(w, name, w.entries[name].mode, f.wipePartial);
    }
  }

  lemma WithTempLogged(w: World, v: Name, src: Node, mode: nat, f: Faults)
    ensures Logged(w, WithTemp(w, v, src, mode, f).w)
  {
    var tmp := v + f.suffix;
    var t := MkdirTemp(w, tmp, f.tempDir);
    if t.ok {
      var c := CopyInto(t.w, src, tmp, f);
      CopyIntoLogged(t.w, src, tmp, f);
      LoggedThen(w, t.w, c.w);
      MoveAsideLogged(c.w, v, mode, tmp, f);
      var s := if c.ok then MoveAside(c.w, v, mode, tmp, f).w else c.w;
      LoggedThen(w, c.w, s);
      RemoveAllLogged(s, tmp, f);
      LoggedThen(w, s, RemoveAll(s, tmp, f));
    }
  }

  lemma WithLinkLogged(w: World, v: Name, src: Node, mode: nat, f: Faults)
    ensures var s := WithLink(w, v, src, mode, f); Logged(w, s.w) && (s.copied ==> |s.w.log| > |w.log|)
  {
    var l := Symlink(w, v, CURRENT_TMP, f.symlink);
    if l.ok {
      var s := WithTemp(l.w, v, src, mode, f).w;
      WithTempLogged(l.w, v, src, mode, f);
      LoggedThen(w, l.w, s);
      LoggedThen(w, s, Remove(s, CURRENT_TMP, f.undoLink).w);
    }
  }

  /** A log that begins with `start` and goes on with writes tells the last state. */
  lemma {:induction false} LogTells(e: Entries, w1: World, w: World, remount: bool)
    requires w1 == World(e, if remount then [] + [Remounted] else []) && Logged(w1, w)
    ensures LastWritten(e, w.log) == w.entries
    ensures forall i | 0 <= i < |w.log| :: w.log[i] == Remounted <==> remount && i == 0
  {
    assert remount ==> w.log[0] == w1.log[0] == Remounted;
    if w == w1 {
      assert LastWritten(e, w1.log) == e;
    }
  }

  /** Nothing happens to the disk that the log does not show, and with the remount flag the remount
      comes first. */
  lemma {:induction false} CopyLogged(e: Entries, src: Entries, remount: bool, f: Faults)
    ensures var s := Copy(World(e, []), src, remount, f);
      && LastWritten(e, s.w.log) == s.w.entries
      && (forall i | 0 <= i < |s.w.log| :: s.w.log[i] == Remounted <==> remount && i == 0)
      && (s.copied ==> s.w.log != [])
  {
    var version := ComponentVersion(src, CURRENT);
    if f.statSrc || version.None? || (!f.statDst && ComponentVersion(e, CURRENT) == version) || (remount && f.remount) {
      assert Copy(World(e, []), src, remount, f).w == World(e, []);
    } else {
      var v := version.value;
      var w1 := World(e, if remount then [] + [Remounted] else []);
      WithLinkLogged(w1, v, src[v], Stat(src, v).value.mode, f);
      var s := WithLink(w1, v, src[v], Stat(src, v).value.mode, f);
      LogTells(e, w1, s.w, remount);
      assert Copy(World(e, []), src, remount, f) == s;
    }
  }

  // ---------------------------------------------------------------- crash safety

  /** Names that only the links of a component directory carry, never a version. */
  predicate IsVersionName(n: Name) { n !in {CURRENT, PREVIOUS, CURRENT_TMP} }

  /** `previous`, if present, is a link. */
  predicate PreviousIsLink(e: Entries) { PREVIOUS in e ==> e[PREVIOUS].Link? }

  /** `current` names `o`, and `o` is the directory `node`. */
  predicate On(e: Entries, o: Name, node: Node) {
    && PreviousIsLink(e)
    && CURRENT in e && e[CURRENT] == Link(o)
    && IsVersionName(o) && o in e && e[o] == node && node.Dir?
  }

  /** `current` names a complete directory: the old one unchanged, or the new one with all its files. */
  predicate Safe(e: Entries, o: Name, node: Node, v: Name, tree: Tree) {
    || On(e, o, node)
    || (PreviousIsLink(e) && CURRENT in e && e[CURRENT] == Link(v) && v in e && e[v].Dir? && e[v].tree == tree)
  }

  predicate LogSafe(log: seq<Event>, o: Name, node: Node, v: Name, tree: Tree) {
    forall i | 0 <= i < |log| && log[i].Wrote? :: Safe(log[i].entries, o, node, v, tree)
  }

  predicate WorldSafe(w: World, o: Name, node: Node, v: Name, tree: Tree) {
    Safe(w.entries, o, node, v, tree) && LogSafe(w.log, o, node, v, tree)
  }

  lemma {:induction false} ChurnSafe(w: World, name: Name, mode: nat, partial: seq<Tree>,
                                     o: Name, node: Node, v: Name, tree: Tree)
    requires WorldSafe(w, o, node, v, tree)
    requires name !in {o, v, CURRENT, PREVIOUS}
    ensures WorldSafe(Churn(w, name, mode, partial), o, node, v, tree)
    decreases |partial|
  {
    if partial == [] {
    } else {
      ChurnSafe(w.Write(w.entries[name := Dir(mode, partial[0])]), name, mode, partial[1..], o, node, v, tree);
    }
  }

  lemma SwitchSafe(w: World, v: Name, mode: nat, tmp: Name, f: Faults, o: Name, node: Node, tree: Tree)
    requires On(w.entries, o, node) && LogSafe(w.log, o, node, v, tree)
    requires IsVersionName(v) && tmp !in {o, v, CURRENT, PREVIOUS, CURRENT_TMP}
    requires tmp in w.entries && w.entries[tmp].Dir? && w.entries[tmp].tree == tree
    requires CURRENT_TMP in w.entries && w.entries[CURRENT_TMP] == Link(v)
    ensures var s := Switch(w, v, mode, tmp, f); WorldSafe(s.w, o, node, v, tree)
  {
    var p := Rename(w, tmp, v, f.place);
    if p.ok {
      assert On(p.w.entries, o, node) && v != o;
      var c := Chmod(p.w, v, mode, f.chmod);
      assert On(c.entries, o, node) && c.entries[v].Dir? && c.entries[v].tree == tree;
      assert LogSafe(c.log, o, node, v, tree);
      var r := Remove(c, PREVIOUS, f.removePrevious).w;
      assert On(r.entries, o, node) && r.entries[v] == c.entries[v];
      assert LogSafe(r.log, o, node, v, tree);
      var l := CopyLink(r, CURRENT, PREVIOUS, f.copyPrevious);
      assert On(l.entries, o, node) && l.entries[v] == c.entries[v];
      LastStepSafe(l, v, f, o, node, tree);
    }
  }

  lemma LastStepSafe(l: World, v: Name, f: Faults, o: Name, node: Node, tree: Tree)
    requires On(l.entries, o, node) && LogSafe(l.log, o, node, v, tree)
    requires v in l.entries && l.entries[v].Dir? && l.entries[v].tree == tree
    requires IsVersionName(v) && CURRENT_TMP in l.entries && l.entries[CURRENT_TMP] == Link(v)
    ensures WorldSafe(Rename(l, CURRENT_TMP, CURRENT, f.switch).w, o, node, v, tree)
  {
  }

  lemma UndoSafe(w: World, v: Name, f: Faults, o: Name, node: Node, tree: Tree)
    requires WorldSafe(w, o, node, v, tree) && IsVersionName(v) && o != v && o != Old(v)
    requires Old(v) !in {v, CURRENT, PREVIOUS, CURRENT_TMP}
    ensures WorldSafe(Rename(w, Old(v), v, f.undoMove).w, o, node, v, tree)
  {
    var u := Rename(w, Old(v), v, f.undoMove).w;
    assert Safe(u.entries, o, node, v, tree);
  }

  lemma MoveAsideSafe(w: World, v: Name, mode: nat, tmp: Name, f: Faults, o: Name, node: Node, tree: Tree)
    requires On(w.entries, o, node) && LogSafe(w.log, o, node, v, tree)
    requires IsVersionName(v) && tmp !in {o, v, CURRENT, PREVIOUS, CURRENT_TMP, Old(v)}
    requires o != v || Old(v) in w.entries
    requires tmp in w.entries && w.entries[tmp].Dir? && w.entries[tmp].tree == tree
    requires CURRENT_TMP in w.entries && w.entries[CURRENT_TMP] == Link(v)
    ensures var s := MoveAside(w, v, mode, tmp, f); WorldSafe(s.w, o, node, v, tree)
  {
    NamesDiffer(v, "0");
    if f.statDest || Stat(w.entries, v).None? {
      SwitchSafe(w, v, mode, tmp, f, o, node, tree);
    } else if StatIsDir(w.entries, v) {
      var m := Rename(w, v, Old(v), f.moveAside);
      if m.ok {
        assert o != v && o != Old(v);
        SwitchSafe(m.w, v, mode, tmp, f, o, node, tree);
        UndoSafe(Switch(m.w, v, mode, tmp, f).w, v, f, o, node, tree);
      }
    } else {
      SwitchSafe(Remove(w, v, f.removeFile).w, v, mode, tmp, f, o, node, tree);
    }
  }

  lemma WithTempSafe(w: World, v: Name, src: Node, mode: nat, f: Faults, o: Name, node: Node)
    requires On(w.entries, o, node) && src.Dir? && LogSafe(w.log, o, node, v, src.tree)
    requires IsVersionName(v) && (o != v || Old(v) in w.entries)
    requires CURRENT_TMP in w.entries && w.entries[CURRENT_TMP] == Link(v)
    ensures WorldSafe(WithTemp(w, v, src, mode, f).w, o, node, v, src.tree)
  {
    var tmp := v + f.suffix;
    NamesDiffer(v, f.suffix);
    var t := MkdirTemp(w, tmp, f.tempDir);
    if t.ok {
      var c := CopyInto(t.w, src, tmp, f);
      CopyIntoSafe(t.w, src, tmp, f, o, node, v);
      CopyIntoEnds(t.w, src, tmp, f);
      if c.ok {
        MoveAsideSafe(c.w, v, mode, tmp, f, o, node, src.tree);
      }
      var s := if c.ok then MoveAside(c.w, v, mode, tmp, f) else Failed(c.w);
      RemoveAllSafe(s.w, tmp, f, o, node, v, src.tree);
    }
  }

  lemma CopyIntoSafe(w: World, src: Node, name: Name, f: Faults, o: Name, node: Node, v: Name)
    requires src.Dir? && WorldSafe(w, o, node, v, src.tree) && name !in {o, v, CURRENT, PREVIOUS}
    requires name in w.entries && w.entries[name].Dir?
    ensures WorldSafe(CopyInto(w, src, name, f).w, o, node, v, src.tree)
  {
    ChurnSafe(w, name, w.entries[name].mode, f.copyPartial, o, node, v, src.tree);
    ChurnFrame(w, name, w.entries[name].mode, f.copyPartial);
    var w1 := Churn(w, name, w.entries[name].mode, f.copyPartial);
    var w2 := w1.Write(w1.entries[name := if f.copy then w1.entries[name] else w1.entries[name].(tree := src.tree)]);
    assert WorldSafe(w2, o, node, v, src.tree);
  }

  lemma RemoveAllSafe(w: World, name: Name, f: Faults, o: Name, node: Node, v: Name, tree: Tree)
    requires WorldSafe(w, o, node, v, tree) && name !in {o, v, CURRENT, PREVIOUS}
    ensures WorldSafe(RemoveAll(w, name, f), o, node, v, tree)
  {
    if name in w.entries && w.entries[name].Dir? {
      ChurnSafe(w, name, w.entries[name].mode, f.wipePartial, o, node, v, tree);
    }
  }

  /** A source that offers version `v`: a real directory, named by the source's `current` link. */
  predicate Offers(src: Entries, v: Name) {
    ComponentVersion(src, CURRENT) == Some(v) && v in src && src[v].Dir? && IsVersionName(v)
  }

  /** Every state the disk goes through, and the last one, is safe to boot from. */
  predicate SafeRun(pre: Entries, src: Entries, remount: bool, f: Faults, o: Name, v: Name)
    requires Offers(src, v) && o in pre
  {
    WorldSafe(Copy(World(pre, []), src, remount, f).w, o, pre[o], v, src[v].tree)
  }

  lemma WithLinkSafe(w: World, v: Name, src: Node, mode: nat, f: Faults, o: Name, node: Node)
    requires On(w.entries, o, node) && src.Dir? && LogSafe(w.log, o, node, v, src.tree)
    requires IsVersionName(v) && (o != v || Old(v) in w.entries || CURRENT_TMP in w.entries)
    ensures WorldSafe(WithLink(w, v, src, mode, f).w, o, node, v, src.tree)
  {
    NamesDiffer(v, "0");
    var l := Symlink(w, v, CURRENT_TMP, f.symlink);
    if l.ok {
      WithTempSafe(l.w, v, src, mode, f, o, node);
      var s := WithTemp(l.w, v, src, mode, f).w;
      assert WorldSafe(s, o, node, v, src.tree);
      assert WorldSafe(Remove(s, CURRENT_TMP, f.undoLink).w, o, node, v, src.tree);
    }
  }

  lemma CopySafe(pre: Entries, src: Entries, remount: bool, f: Faults, o: Name, v: Name)
    requires Offers(src, v) && o in pre && On(pre, o, pre[o])
    requires o != v || !f.statDst || CURRENT_TMP in pre || Old(v) in pre
    ensures SafeRun(pre, src, remount, f, o, v)
  {
    assert ComponentVersion(pre, CURRENT) == Some(o);
    if f.statSrc || (!f.statDst && o == v) || (remount && f.remount) {
      assert Copy(World(pre, []), src, remount, f).w == World(pre, []);
    } else {
      WithLinkSafe(World(pre, if remount then [] + [Remounted] else []), v, src[v], Stat(src, v).value.mode, f, o, pre[o]);
    }
  }

  const NO_FAULTS := Faults(false, false, false, false, false, "0", [], false, false, false, false, false,
                            false, false, false, false, false, false, [], false, false)

  /** Some decimal number makes a name that is not taken. */
  lemma {:induction false} FreshSuffix(e: Entries, v: Name) returns (suffix: Digits)
    ensures v + suffix !in e
  {
    var longest: nat := 0;
    var names := e.Keys;
    while names != {}
      invariant names <= e.Keys
      invariant forall n | n in e.Keys - names :: |n| <= longest
      decreases names
    {
      var n :| n in names;
      longest := if |n| > longest then |n| else longest;
      names := names - {n};
    }
    assert e.Keys - names == e.Keys;
    suffix := seq(longest + 1, i => '0');
  }

  /** The one fault that leaves `current` dangling: re-installing the running version because its
      version could not be read, then moving it aside. */
  lemma UnsafeReinstall(pre: Entries, src: Entries, remount: bool, v: Name) returns (f: Faults)
    requires Offers(src, v) && v in pre && On(pre, v, pre[v])
    requires CURRENT_TMP !in pre && Old(v) !in pre
    ensures !SafeRun(pre, src, remount, f, v, v)
  {
    var suffix := FreshSuffix(pre, v);
    f := NO_FAULTS.(statDst := true, suffix := suffix);
    NamesDiffer(v, suffix);
    var w := World(pre, if remount then [] + [Remounted] else []);
    var l := Symlink(w, v, CURRENT_TMP, false);
    assert l.ok && l.w.entries == pre[CURRENT_TMP := Link(v)];
    var mode := Stat(src, v).value.mode;
    var bad := AsideIsUnsafe(l.w, v, src[v], mode, f);
    var s := WithTemp(l.w, v, src[v], mode, f).w;
    var r := Remove(s, CURRENT_TMP, false).w;
    assert s.log <= r.log && r.log[bad] == s.log[bad];
    assert Copy(World(pre, []), src, remount, f).w == r;
  }

  /** Moving the running version aside puts a state on disk in which `current` names nothing. */
  lemma AsideIsUnsafe(w: World, v: Name, src: Node, mode: nat, f: Faults) returns (bad: nat)
    requires src.Dir? && On(w.entries, v, if v in w.entries then w.entries[v] else src)
    requires v + f.suffix !in w.entries && Old(v) !in w.entries
    requires f == NO_FAULTS.(statDst := true, suffix := f.suffix)
    ensures var log := WithTemp(w, v, src, mode, f).w.log;
      && bad < |log| && log[bad].Wrote?
      && CURRENT in log[bad].entries && log[bad].entries[CURRENT] == Link(v) && v !in log[bad].entries
  {
    NamesDiffer(v, f.suffix);
    var tmp := v + f.suffix;
    var t := MkdirTemp(w, tmp, false);
    var c := CopyInto(t.w, src, tmp, f);
    assert c.ok && c.w.entries == w.entries[tmp := src];
    var m := Rename(c.w, v, Old(v), false);
    bad := |m.w.log| - 1;
    assert m.ok && m.w.log[bad] == Wrote(m.w.entries);
    var s := Switch(m.w, v, mode, tmp, f);
    SwitchLogged(m.w, v, mode, tmp, f);
    var u := Rename(s.w, Old(v), v, false).w;
    assert s.w.log <= u.log;
    assert MoveAside(c.w, v, mode, tmp, f).w == u;
    assert u.log <= RemoveAll(u, tmp, f).log;
    assert WithTemp(w, v, src, mode, f).w == RemoveAll(u, tmp, f);
  }

  /** Crash safety, exactly: whatever fails and whenever the machine stops, `current` names a complete
      directory, unless the source offers the very version that is current and no leftover of an
      earlier attempt blocks the switch. */
  lemma CrashSafety(pre: Entries, src: Entries, remount: bool, o: Name, v: Name)
    requires Offers(src, v) && o in pre && On(pre, o, pre[o])
    ensures (forall f: Faults :: SafeRun(pre, src, remount, f, o, v)) <==> (o != v || CURRENT_TMP in pre || Old(v) in pre)
    ensures forall f: Faults | !f.statDst :: SafeRun(pre, src, remount, f, o, v)
  {
    forall f: Faults | o != v || !f.statDst || CURRENT_TMP in pre || Old(v) in pre
      ensures SafeRun(pre, src, remount, f, o, v)
    {
      CopySafe(pre, src, remount, f, o, v);
    }
    if o == v && CURRENT_TMP !in pre && Old(v) !in pre {
      var f := UnsafeReinstall(pre, src, remount, v);
    }
  }

  // ---------------------------------------------------------------- what a call leaves behind

  function At(e: Entries, n: Name): Option<Node> { if n in e then Some(e[n]) else None }

  /** The `previous` entry once the switch has tried to replace it. */
  function PreviousAfter(e: Entries, f: Faults): Option<Node> {
    if PREVIOUS in e && (f.removePrevious || (e[PREVIOUS].Dir? && e[PREVIOUS].tree != map[])) then At(e, PREVIOUS)
    else if f.copyPrevious then None
    else At(e, CURRENT)
  }

  /** What the directory of an installed version looks like. */
  function Installed(src: Node, mode: nat, f: Faults): Node
    requires src.Dir?
  {
    Dir(if !f.chmod then mode else if f.copyChmod then 0x1c0 else src.mode, src.tree)
  }

  /** The entries once the new directory is in place: `e` is the state before the switch, `s` its outcome. */
  predicate InPlace(e: Entries, s: Outcome, v: Name, node: Node, aside: Option<Node>, tmp: Name, f: Faults) {
    var after := s.w.entries;
    && At(after, v) == Some(node)
    && At(after, Old(v)) == aside
    && At(after, PREVIOUS) == PreviousAfter(e, f)
    && At(after, CURRENT) == (if s.copied then Some(Link(v)) else At(e, CURRENT))
    && At(after, CURRENT_TMP) == (if s.copied then None else Some(Link(v)))
    && tmp !in after
    && SameBut(after, e, {tmp, v, Old(v), PREVIOUS, CURRENT, CURRENT_TMP})
  }

  /** The state in which the switch starts: the copy is complete and the next link is ready. */
  predicate Ready(e: Entries, v: Name, tmp: Name) {
    && IsVersionName(v) && tmp !in {v, CURRENT, PREVIOUS, CURRENT_TMP, Old(v)}
    && Old(v) !in {v, CURRENT, PREVIOUS, CURRENT_TMP}
    && tmp in e && e[tmp].Dir?
    && CURRENT_TMP in e && e[CURRENT_TMP] == Link(v)
  }

  function Moded(node: Node, mode: nat, f: Faults): Node
    requires node.Dir?
  {
    if f.chmod then node else node.(mode := mode)
  }

  predicate SwitchEnd(e: Entries, s: Outcome, v: Name, mode: nat, tmp: Name, f: Faults)
    requires Ready(e, v, tmp)
  {
    && s.copied == s.ok && (s.copied ==> s.placed)
    && (!s.placed ==> s.w.entries == e)
    && (s.placed ==> v !in e && InPlace(e, s, v, Moded(e[tmp], mode, f), At(e, Old(v)), tmp, f))
  }

  /** Replacing `previous`. */
  lemma PreviousReplaced(w: World, f: Faults)
    ensures var l := CopyLink(Remove(w, PREVIOUS, f.removePrevious).w, CURRENT, PREVIOUS, f.copyPrevious).entries;
      && At(l, PREVIOUS) == PreviousAfter(w.entries, f) && SameBut(l, w.entries, {PREVIOUS})
  {
  }

  lemma LinkSwitched(e: Entries, c: Entries, l: World, v: Name, mode: nat, tmp: Name, f: Faults)
    requires Ready(e, v, tmp) && v !in e
    requires c == (e - {tmp})[v := Moded(e[tmp], mode, f)]
    requires At(l.entries, PREVIOUS) == PreviousAfter(c, f) && SameBut(l.entries, c, {PREVIOUS})
    ensures var s := Rename(l, CURRENT_TMP, CURRENT, f.switch);
      SwitchEnd(e, Outcome(s.w, s.ok, s.ok, true), v, mode, tmp, f)
  {
    assert PreviousAfter(c, f) == PreviousAfter(e, f);
  }

  lemma SwitchEnds(w: World, v: Name, mode: nat, tmp: Name, f: Faults)
    requires Ready(w.entries, v, tmp)
    ensures SwitchEnd(w.entries, Switch(w, v, mode, tmp, f), v, mode, tmp, f)
  {
    var p := Rename(w, tmp, v, f.place);
    if p.ok {
      var c := Chmod(p.w, v, mode, f.chmod);
      PreviousReplaced(c, f);
      var l := CopyLink(Remove(c, PREVIOUS, f.removePrevious).w, CURRENT, PREVIOUS, f.copyPrevious);
      LinkSwitched(w.entries, c.entries, l, v, mode, tmp, f);
    }
  }

  /** What is under the moved-aside name at the end: the old version, if there was one to move. */
  function AsideAfter(e: Entries, v: Name): Option<Node> {
    if StatIsDir(e, v) then At(e, v) else At(e, Old(v))
  }

  predicate MoveEnd(e: Entries, s: Outcome, v: Name, mode: nat, tmp: Name, f: Faults)
    requires Ready(e, v, tmp)
  {
    && s.copied == s.ok && (s.copied ==> s.placed)
    && (!s.placed && !f.undoMove && (v in e ==> e[v].Dir?) ==> s.w.entries == e)
    && (!s.placed ==> SameBut(s.w.entries, e, {v, Old(v)}))
    && (!s.placed && v in e && e[v].Dir? ==> e[v] in {At(s.w.entries, v).GetOr(Link(v)), At(s.w.entries, Old(v)).GetOr(Link(v))})
    && (s.placed ==> InPlace(e, s, v, Moded(e[tmp], mode, f), AsideAfter(e, v), tmp, f))
    && (s.placed && v in e && e[v].Dir? ==> Old(v) !in e)
    && (s.placed && Old(v) in e && e[Old(v)].Dir? ==> At(s.w.entries, Old(v)) == At(e, Old(v)))
  }

  /** The deferred rename: it restores the old version only while nothing took its place. */
  lemma UndoMove(e: Entries, w: World, s: Outcome, v: Name, mode: nat, tmp: Name, f: Faults)
    requires Ready(e, v, tmp) && v in e && StatIsDir(e, v)
    requires w.entries == (e - {v})[Old(v) := e[v]] && !(Old(v) in e && (e[v].Dir? || e[Old(v)].Dir?))
    requires Ready(w.entries, v, tmp) && SwitchEnd(w.entries, s, v, mode, tmp, f)
    ensures MoveEnd(e, s.(w := Rename(s.w, Old(v), v, f.undoMove).w), v, mode, tmp, f)
  {
    var u := s.(w := Rename(s.w, Old(v), v, f.undoMove).w);
    if s.placed {
      assert u == s;
      assert PreviousAfter(w.entries, f) == PreviousAfter(e, f);
    } else if !f.undoMove {
      assert u.w.entries == (w.entries - {Old(v)})[v := e[v]];
    }
  }

  lemma MoveAsideEnds(w: World, v: Name, mode: nat, tmp: Name, f: Faults)
    requires Ready(w.entries, v, tmp)
    ensures MoveEnd(w.entries, MoveAside(w, v, mode, tmp, f), v, mode, tmp, f)
  {
    var e := w.entries;
    if f.statDest || Stat(e, v).None? {
      SwitchEnds(w, v, mode, tmp, f);
    } else if StatIsDir(e, v) {
      var m := Rename(w, v, Old(v), f.moveAside);
      if m.ok {
        SwitchEnds(m.w, v, mode, tmp, f);
        UndoMove(e, m.w, Switch(m.w, v, mode, tmp, f), v, mode, tmp, f);
      }
    } else {
      SwitchEnds(Remove(w, v, f.removeFile).w, v, mode, tmp, f);
    }
  }

  lemma RemoveAllEnds(w: World, name: Name, f: Faults)
    ensures var e := RemoveAll(w, name, f).entries;
      SameBut(e, w.entries, {name}) && (!f.wipe || name !in w.entries ==> name !in e)
  {
    if name in w.entries && w.entries[name].Dir? {
      ChurnFrame(w, name, w.entries[name].mode, f.wipePartial);
    }
  }

  lemma CopyIntoEnds(w: World, src: Node, name: Name, f: Faults)
    requires name in w.entries && w.entries[name] == Dir(0x1c0, map[])
    ensures var c := CopyInto(w, src, name, f);
      && name in c.w.entries && c.w.entries[name].Dir? && SameBut(c.w.entries, w.entries, {name})
      && (c.ok ==> src.Dir? && c.w.entries[name] == Dir(if f.copyChmod then 0x1c0 else src.mode, src.tree))
    decreases |f.copyPartial|
  {
    ChurnFrame(w, name, 0x1c0, f.copyPartial);
    ChurnMode(w, name, 0x1c0, f.copyPartial);
  }

  lemma {:induction false} ChurnMode(w: World, name: Name, mode: nat, partial: seq<Tree>)
    requires name in w.entries && w.entries[name].Dir? && w.entries[name].mode == mode
    ensures var e := Churn(w, name, mode, partial).entries; name in e && e[name].Dir? && e[name].mode == mode
    decreases |partial|
  {
    if partial == [] {
    } else {
      ChurnMode(w.Write(w.entries[name := Dir(mode, partial[0])]), name, mode, partial[1..]);
    }
  }

  /** Some deferred call fails. */
  predicate UndoFaults(f: Faults) { f.undoMove || f.wipe || f.undoLink }

  /** How a call ends; `tmp` is its temporary directory. */
  predicate CallEnd(e: Entries, s: Outcome, v: Name, src: Node, mode: nat, tmp: Name, f: Faults)
    requires src.Dir?
  {
    var last := s.w.entries;
    && s.copied == s.ok && (s.copied ==> s.placed)
    // nothing installed: all is as before, or at worst the cleanup left its own names behind
    && (!s.placed && !UndoFaults(f) && (v in e ==> e[v].Dir?) ==> last == e)
    && (!s.placed ==> SameBut(last, e, {v, Old(v), tmp, CURRENT_TMP}))
    && (!s.placed && v in e && e[v].Dir? ==> At(last, v) == Some(e[v]) || At(last, Old(v)) == Some(e[v]))
    // installed: the whole new state
    && (s.placed ==>
        && At(last, v) == Some(Installed(src, mode, f))
        && (v in e && e[v].Dir? ==> Old(v) !in e && At(last, Old(v)) == Some(e[v]))
        && (v !in e || (Old(v) in e && e[Old(v)].Dir?) ==> At(last, Old(v)) == At(e, Old(v)))
        && At(last, PREVIOUS) == PreviousAfter(e, f)
        && At(last, CURRENT) == (if s.copied then Some(Link(v)) else At(e, CURRENT))
        && CURRENT_TMP !in e && (s.copied || !f.undoLink ==> CURRENT_TMP !in last)
        && tmp !in e
        && SameBut(last, e, {v, Old(v), PREVIOUS, CURRENT, CURRENT_TMP}))
  }

  lemma WithLinkEnds(w: World, v: Name, src: Node, mode: nat, f: Faults)
    requires IsVersionName(v) && src.Dir?
    ensures CallEnd(w.entries, WithLink(w, v, src, mode, f), v, src, mode, v + f.suffix, f)
  {
    var tmp := v + f.suffix;
    NamesDiffer(v, f.suffix);
    var l := Symlink(w, v, CURRENT_TMP, f.symlink);
    if l.ok {
      var t := MkdirTemp(l.w, tmp, f.tempDir);
      if t.ok {
        var c := CopyInto(t.w, src, tmp, f);
        CopyIntoEnds(t.w, src, tmp, f);
        if c.ok {
          MoveAsideEnds(c.w, v, mode, tmp, f);
        }
        var s := if c.ok then MoveAside(c.w, v, mode, tmp, f) else Failed(c.w);
        RemoveAllEnds(s.w, tmp, f);
        CleanupEnds(w.entries, c.w.entries, s, v, src, mode, tmp, f);
      }
    }
  }

  /** The two outer deferred calls, in the order they run. */
  lemma CleanupEnds(e: Entries, c: Entries, s: Outcome, v: Name, src: Node, mode: nat, tmp: Name, f: Faults)
    requires src.Dir? && CURRENT_TMP !in e && tmp !in e
    requires Ready(c, v, tmp) && SameBut(c, e, {tmp, CURRENT_TMP})
    requires (s == Failed(s.w) && s.w.entries == c)
          || (c[tmp] == Dir(if f.copyChmod then 0x1c0 else src.mode, src.tree) && MoveEnd(c, s, v, mode, tmp, f))
    ensures var d := s.(w := Remove(RemoveAll(s.w, tmp, f), CURRENT_TMP, f.undoLink).w);
      CallEnd(e, d, v, src, mode, tmp, f)
  {
    RemoveAllEnds(s.w, tmp, f);
    var a := RemoveAll(s.w, tmp, f);
    var d := Remove(a, CURRENT_TMP, f.undoLink).w;
    if s.placed {
      CleanupAfterInstall(e, c, s, a.entries, d, v, src, mode, tmp, f);
    } else {
      assert At(s.w.entries, CURRENT_TMP) == Some(Link(v));
      CleanupAfterFailure(e, c, s, a.entries, d, v, src, mode, tmp, f);
    }
  }

  lemma CleanupAfterFailure(e: Entries, c: Entries, s: Outcome, a: Entries, d: World,
                            v: Name, src: Node, mode: nat, tmp: Name, f: Faults)
    requires src.Dir? && CURRENT_TMP !in e && tmp !in e
    requires Ready(c, v, tmp) && SameBut(c, e, {tmp, CURRENT_TMP})
    requires !s.placed && ((s == Failed(s.w) && s.w.entries == c) || MoveEnd(c, s, v, mode, tmp, f))
    requires SameBut(a, s.w.entries, {tmp}) && (!f.wipe ==> tmp !in a)
    requires d.entries == if f.undoLink then a else a - {CURRENT_TMP}
    ensures CallEnd(e, s.(w := d), v, src, mode, tmp, f)
  {
    if !UndoFaults(f) && (v in e ==> e[v].Dir?) {
      assert s.w.entries == c;
      assert d.entries == e;
    }
  }

  lemma CleanupAfterInstall(e: Entries, c: Entries, s: Outcome, a: Entries, d: World,
                            v: Name, src: Node, mode: nat, tmp: Name, f: Faults)
    requires src.Dir? && CURRENT_TMP !in e && tmp !in e
    requires Ready(c, v, tmp) && SameBut(c, e, {tmp, CURRENT_TMP})
    requires c[tmp] == Dir(if f.copyChmod then 0x1c0 else src.mode, src.tree)
    requires s.placed && MoveEnd(c, s, v, mode, tmp, f)
    requires SameBut(a, s.w.entries, {tmp}) && tmp !in a
    requires d.entries == if f.undoLink || CURRENT_TMP !in a then a else a - {CURRENT_TMP}
    ensures CallEnd(e, s.(w := d), v, src, mode, tmp, f)
  {
    assert InPlace(c, s, v, Installed(src, mode, f), AsideAfter(c, v), tmp, f);
    assert a == s.w.entries;
    assert PreviousAfter(c, f) == PreviousAfter(e, f);
    assert v in e && e[v].Dir? ==> StatIsDir(c, v);
  }

  lemma CopyEnds(w: World, src: Entries, remount: bool, f: Faults, v: Name)
    requires Offers(src, v)
    ensures var s := Copy(w, src, remount, f);
      || (s.w.entries == w.entries && !s.copied && !s.placed)
      || CallEnd(w.entries, s, v, src[v], src[v].mode, v + f.suffix, f)
  {
    WithLinkEnds(World(w.entries, if remount then w.log + [Remounted] else w.log), v, src[v], src[v].mode, f);
  }

  /** Only a call that reports no error reports a copy. */
  lemma CopiedIsOk(w: World, src: Entries, remount: bool, f: Faults)
    ensures var s := Copy(w, src, remount, f); s.copied ==> s.ok
  {
    var version := ComponentVersion(src, CURRENT);
    if version.Some? {
      var w1 := if remount then World(w.entries, w.log + [Remounted]) else w;
      WithLinkCopiedIsOk(w1, version.value, src[version.value], Stat(src, version.value).value.mode, f);
    }
  }

  lemma WithLinkCopiedIsOk(w: World, v: Name, src: Node, mode: nat, f: Faults)
    ensures var s := WithLink(w, v, src, mode, f); s.copied ==> s.ok
  {
    var tmp := v + f.suffix;
    var l := Symlink(w, v, CURRENT_TMP, f.symlink);
    var t := MkdirTemp(l.w, tmp, f.tempDir);
    if l.ok && t.ok {
      var c := CopyInto(t.w, src, tmp, f);
      var s := MoveAside(c.w, v, mode, tmp, f);
      assert s.copied ==> s.ok;
    }
  }

  /** All or nothing, exactly: a call that did not rename the new directory into place leaves the
      component as it found it, unless a plain file sits at the destination (it is removed first). */
  lemma AllOrNothing(pre: Entries, src: Entries, remount: bool, v: Name)
    requires Offers(src, v) && (v in pre ==> !pre[v].Link?)
    ensures (forall f: Faults | !UndoFaults(f) && !Copy(World(pre, []), src, remount, f).placed ::
                Copy(World(pre, []), src, remount, f).w.entries == pre)
       <==> (v !in pre || pre[v].Dir? || CURRENT_TMP in pre)
  {
    if v !in pre || pre[v].Dir? || CURRENT_TMP in pre {
      forall f: Faults | !UndoFaults(f) && !Copy(World(pre, []), src, remount, f).placed
        ensures Copy(World(pre, []), src, remount, f).w.entries == pre
      {
        CopyEnds(World(pre, []), src, remount, f, v);
      }
    } else {
      var suffix := FreshSuffix(pre, v);
      var f := NO_FAULTS.(place := true, suffix := suffix);
      FileIsLost(World(pre, if remount then [] + [Remounted] else []), v, src[v], src[v].mode, f);
      assert !Copy(World(pre, []), src, remount, f).placed;
    }
  }

  lemma FileIsLost(w: World, v: Name, src: Node, mode: nat, f: Faults)
    requires IsVersionName(v) && v in w.entries && w.entries[v].File? && CURRENT_TMP !in w.entries
    requires src.Dir? && v + f.suffix !in w.entries && f == NO_FAULTS.(place := true, suffix := f.suffix)
    ensures var s := WithLink(w, v, src, mode, f); !s.placed && v !in s.w.entries
  {
    var tmp := v + f.suffix;
    NamesDiffer(v, f.suffix);
    var l := Symlink(w, v, CURRENT_TMP, false);
    var t := MkdirTemp(l.w, tmp, false);
    var c := CopyInto(t.w, src, tmp, f);
    assert c.ok && c.w.entries == l.w.entries[tmp := src];
    var s := MoveAside(c.w, v, mode, tmp, f);
    assert s == Failed(Remove(c.w, v, false).w);
    assert v !in s.w.entries;
    RemoveAllEnds(s.w, tmp, f);
  }

  /** A call that returns true: `current` names the source version, which holds the source's files;
      `previous` names what `current` named, if it could be replaced; everything else is kept. */
  lemma CopiedMeansSwitched(pre: Entries, src: Entries, remount: bool, f: Faults, o: Name, v: Name)
    requires Offers(src, v) && o in pre && On(pre, o, pre[o]) && (!f.statDst || o != v)
    requires Copy(World(pre, []), src, remount, f).copied
    ensures var last := Copy(World(pre, []), src, remount, f).w.entries;
      && o != v
      && At(last, CURRENT) == Some(Link(v)) && At(last, v) == Some(Installed(src[v], src[v].mode, f))
      && At(last, o) == Some(pre[o])
      && (At(last, PREVIOUS) == Some(Link(o)) <==>
            if f.removePrevious && PREVIOUS in pre then pre[PREVIOUS] == Link(o) else !f.copyPrevious)
      && SameBut(last, pre, {v, Old(v), PREVIOUS, CURRENT})
  {
    CopyEnds(World(pre, []), src, remount, f, v);
    assert ComponentVersion(pre, CURRENT) == Some(o);
    SwitchedFromCallEnd(pre, Copy(World(pre, []), src, remount, f), v, src[v], f, o);
  }

  lemma SwitchedFromCallEnd(e: Entries, s: Outcome, v: Name, src: Node, f: Faults, o: Name)
    requires src.Dir? && o in e && On(e, o, e[o]) && s.copied && o != v && IsVersionName(v)
    requires CallEnd(e, s, v, src, src.mode, v + f.suffix, f)
    ensures var last := s.w.entries;
      && At(last, CURRENT) == Some(Link(v)) && At(last, v) == Some(Installed(src, src.mode, f))
      && At(last, o) == Some(e[o])
      && (At(last, PREVIOUS) == Some(Link(o)) <==>
            if f.removePrevious && PREVIOUS in e then e[PREVIOUS] == Link(o) else !f.copyPrevious)
      && SameBut(last, e, {v, Old(v), PREVIOUS, CURRENT})
  {
    NamesDiffer(v, "0");
    var last := s.w.entries;
    assert At(last, PREVIOUS) == PreviousAfter(e, f);
    assert At(last, Old(v)) == (if v in e && e[v].Dir? then At(e, v) else At(last, Old(v)));
    assert CURRENT_TMP !in last && CURRENT_TMP !in e;
  }

  lemma SwitchWorks(w: World, v: Name, mode: nat, tmp: Name, f: Faults)
    requires Ready(w.entries, v, tmp)
    requires CURRENT in w.entries ==> !w.entries[CURRENT].Dir?
    ensures Switch(w, v, mode, tmp, f).copied <==> v !in w.entries && !f.place && !f.switch
  {
    var p := Rename(w, tmp, v, f.place);
    if p.ok {
      var c := Chmod(p.w, v, mode, f.chmod);
      PreviousReplaced(c, f);
    }
  }

  /** The version's place is free, or can be made free. */
  predicate CanPlace(e: Entries, v: Name, f: Faults) {
    v in e ==> !f.statDest && if e[v].Dir? then !f.moveAside && Old(v) !in e else !f.removeFile
  }

  lemma MoveAsideWorks(w: World, v: Name, mode: nat, tmp: Name, f: Faults)
    requires Ready(w.entries, v, tmp)
    requires CURRENT in w.entries ==> !w.entries[CURRENT].Dir?
    requires v in w.entries ==> !w.entries[v].Link?
    ensures MoveAside(w, v, mode, tmp, f).copied <==> CanPlace(w.entries, v, f) && !f.place && !f.switch
  {
    if f.statDest || v !in w.entries {
      SwitchWorks(w, v, mode, tmp, f);
    } else if w.entries[v].Dir? {
      var m := Rename(w, v, Old(v), f.moveAside);
      if m.ok {
        SwitchWorks(m.w, v, mode, tmp, f);
      }
    } else {
      SwitchWorks(Remove(w, v, f.removeFile).w, v, mode, tmp, f);
    }
  }

  lemma WithTempWorks(w: World, v: Name, src: Node, mode: nat, f: Faults)
    requires src.Dir? && IsVersionName(v) && CURRENT_TMP in w.entries && w.entries[CURRENT_TMP] == Link(v)
    requires CURRENT in w.entries ==> !w.entries[CURRENT].Dir?
    requires v in w.entries ==> !w.entries[v].Link?
    ensures WithTemp(w, v, src, mode, f).copied
       <==> !f.tempDir && v + f.suffix !in w.entries && !f.copy && CanPlace(w.entries, v, f) && !f.place && !f.switch
  {
    var tmp := v + f.suffix;
    NamesDiffer(v, f.suffix);
    var t := MkdirTemp(w, tmp, f.tempDir);
    if t.ok {
      var c := CopyInto(t.w, src, tmp, f);
      CopyIntoEnds(t.w, src, tmp, f);
      if c.ok {
        assert Ready(c.w.entries, v, tmp);
        MoveAsideWorks(c.w, v, mode, tmp, f);
        assert CanPlace(c.w.entries, v, f) <==> CanPlace(w.entries, v, f);
      }
    }
  }

  /** The destination is seen to run the source's version already. */
  predicate UpToDate(pre: Entries, f: Faults, v: Name) { !f.statDst && ComponentVersion(pre, CURRENT) == Some(v) }

  /** No failure that ends the call, and nothing of an earlier attempt in the way. Failing to set a mode or
      to replace `previous` ends nothing. */
  predicate Unhindered(pre: Entries, remount: bool, f: Faults, v: Name) {
    && !(remount && f.remount)
    && !f.symlink && CURRENT_TMP !in pre
    && !f.tempDir && v + f.suffix !in pre && !f.copy
    && CanPlace(pre, v, f) && !f.place && !f.switch
  }

  /** When a call copies, and when it reports no error, exactly, for every fault pattern. */
  lemma CopiesExactly(pre: Entries, src: Entries, remount: bool, f: Faults, v: Name)
    requires Offers(src, v) && (CURRENT in pre ==> !pre[CURRENT].Dir?) && (v in pre ==> !pre[v].Link?)
    ensures var s := Copy(World(pre, []), src, remount, f);
      && (s.copied <==> !f.statSrc && !UpToDate(pre, f, v) && Unhindered(pre, remount, f, v))
      && (s.ok <==> !f.statSrc && (UpToDate(pre, f, v) || Unhindered(pre, remount, f, v)))
  {
    NamesDiffer(v, f.suffix);
    var w := World(pre, if remount then [] + [Remounted] else []);
    var l := Symlink(w, v, CURRENT_TMP, f.symlink);
    if l.ok {
      WithTempWorks(l.w, v, src[v], src[v].mode, f);
      assert CanPlace(l.w.entries, v, f) <==> CanPlace(pre, v, f);
    }
    WithLinkEnds(w, v, src[v], src[v].mode, f);
    if !f.statSrc && !UpToDate(pre, f, v) && !(remount && f.remount) {
      assert Copy(World(pre, []), src, remount, f) == WithLink(w, v, src[v], src[v].mode, f);
    }
  }

  /** A source without a version: an error, and nothing is touched. */
  lemma NothingOffered(pre: Entries, src: Entries, remount: bool, f: Faults)
    requires f.statSrc || ComponentVersion(src, CURRENT).None?
    ensures Copy(World(pre, []), src, remount, f) == Outcome(World(pre, []), false, false, false)
  {
  }

  /** The version a link of a component directory names: the sibling it points to, if that is a directory. */
  lemma VersionRead(e: Entries, alias: Name)
    requires alias in e && e[alias].Link? ==> e[alias].target in e ==> !e[e[alias].target].Link?
    ensures var r := ComponentVersion(e, alias);
      && (r.Some? <==> alias in e && e[alias].Link? && e[alias].target in e && e[e[alias].target].Dir?)
      && (r.Some? ==> r.value == e[alias].target)
  {
    if alias in e && e[alias].Link? {
      assert Stat(e, alias) == Stat(e, e[alias].target, MAX_LINKS - 1);
    }
  }

  /** When nothing fails, another version is installed exactly when no leftover of an earlier attempt is
      in the way: no `current.tmp`, and no moved-aside directory of the same version. */
  lemma InstallsUnlessBlocked(pre: Entries, src: Entries, remount: bool, suffix: Digits, o: Name, v: Name)
    requires Offers(src, v) && o in pre && On(pre, o, pre[o]) && o != v
    requires (v in pre ==> !pre[v].Link?) && v + suffix !in pre
    ensures Copy(World(pre, []), src, remount, NO_FAULTS.(suffix := suffix)).copied
       <==> CURRENT_TMP !in pre && (v in pre && pre[v].Dir? ==> Old(v) !in pre)
  {
    assert ComponentVersion(pre, CURRENT) == Some(o);
    CopiesExactly(pre, src, remount, NO_FAULTS.(suffix := suffix), v);
  }

  /** A version can be re-installed once: the directory moved aside stays, and blocks the next time. */
  lemma ReinstallOnce(pre: Entries, src: Entries, remount: bool, f: Faults, v: Name)
    requires Offers(src, v) && v in pre && pre[v].Dir?
    ensures var s := Copy(World(pre, []), src, remount, f);
      && (Old(v) in pre ==> !s.placed)
      && (s.placed ==> At(s.w.entries, Old(v)) == Some(pre[v]) && v in s.w.entries && s.w.entries[v].Dir?)
  {
    CopyEnds(World(pre, []), src, remount, f, v);
  }

  // ---------------------------------------------------------------- whole runs

  /** One call of `CopyComponent`, perhaps cut short by a crash after some number of events. */
  datatype Attempt = Attempt(src: Entries, remount: bool, f: Faults, crash: Option<nat>)

  function Call(e: Entries, a: Attempt): Outcome { Copy(World(e, []), a.src, a.remount, a.f) }

  function After(e: Entries, a: Attempt): Entries {
    var log := Call(e, a).w.log;
    if a.crash.Some? && a.crash.value < |log| then LastWritten(e, log[..a.crash.value]) else Call(e, a).w.entries
  }

  predicate Completed(e: Entries, a: Attempt) {
    Call(e, a).copied && (a.crash.Some? ==> a.crash.value >= |Call(e, a).w.log|)
  }

  /** The source is well formed, and it is not the running version that is installed again unnoticed. */
  predicate Proper(e: Entries, a: Attempt) {
    var version := ComponentVersion(a.src, CURRENT);
    version.Some? ==>
      && Offers(a.src, version.value)
      && (a.f.statDst ==> At(e, CURRENT) != Some(Link(version.value)) || CURRENT_TMP in e || Old(version.value) in e)
  }

  predicate Bootable(e: Entries) {
    CURRENT in e && e[CURRENT].Link? && e[CURRENT].target in e && On(e, e[CURRENT].target, e[e[CURRENT].target])
  }

  /** `tree` is what some source offered as version `n`, or what `n` held to begin with. */
  predicate Genuine(n: Name, tree: Tree, start: Entries, attempts: seq<Attempt>) {
    || (n in start && start[n].Dir? && start[n].tree == tree)
    || exists i :: 0 <= i < |attempts| && Offers(attempts[i].src, n) && attempts[i].src[n].tree == tree
  }

  predicate BootsGenuine(e: Entries, start: Entries, attempts: seq<Attempt>) {
    Bootable(e) && Genuine(e[CURRENT].target, e[e[CURRENT].target].tree, start, attempts)
  }

  predicate IsRun(states: seq<Entries>, attempts: seq<Attempt>) {
    && |states| == |attempts| + 1
    && forall i | 0 <= i < |attempts| :: states[i + 1] == After(states[i], attempts[i])
  }

  /** The guarantee for one attempt in a run. */
  predicate RolledForward(e: Entries, next: Entries, a: Attempt) {
    && Bootable(e) && Bootable(next)
    && var o := e[CURRENT].target;
    (Completed(e, a) ==>
        var v := next[CURRENT].target;
        && v != o && Offers(a.src, v) && next[v].tree == a.src[v].tree
        && At(next, o) == At(e, o)
        && (!a.f.copyPrevious && (PREVIOUS in e ==> !a.f.removePrevious) ==> At(next, PREVIOUS) == Some(Link(o))))
  }

  lemma {:induction false} LastIsSafe(e: Entries, log: seq<Event>, o: Name, node: Node, v: Name, tree: Tree)
    requires Safe(e, o, node, v, tree) && LogSafe(log, o, node, v, tree)
    ensures Safe(LastWritten(e, log), o, node, v, tree)
  {
    if log == [] || log[|log| - 1].Wrote? {
    } else {
      LastIsSafe(e, log[..|log| - 1], o, node, v, tree);
    }
  }

  lemma AttemptKeepsBootable(e: Entries, a: Attempt)
    requires Bootable(e) && Proper(e, a)
    ensures RolledForward(e, After(e, a), a)
    ensures var next := After(e, a); var n := next[CURRENT].target;
      || (n == e[CURRENT].target && next[n] == e[n])
      || (Offers(a.src, n) && next[n].tree == a.src[n].tree)
  {
    var o := e[CURRENT].target;
    var version := ComponentVersion(a.src, CURRENT);
    if version.None? {
      assert Call(e, a) == Failed(World(e, []));
    } else {
      var v := version.value;
      CopySafe(e, a.src, a.remount, a.f, o, v);
      var s := Call(e, a);
      assert forall k | 0 <= k <= |s.w.log| :: LogSafe(s.w.log[..k], o, e[o], v, a.src[v].tree);
      if a.crash.Some? && a.crash.value < |s.w.log| {
        LastIsSafe(e, s.w.log[..a.crash.value], o, e[o], v, a.src[v].tree);
      } else if s.copied {
        CopyEnds(World(e, []), a.src, a.remount, a.f, v);
        CopiedMeansSwitched(e, a.src, a.remount, a.f, o, v);
      }
      assert Safe(After(e, a), o, e[o], v, a.src[v].tree);
    }
  }

  lemma {:induction false} RunReaches(states: seq<Entries>, attempts: seq<Attempt>, i: nat)
    requires IsRun(states, attempts) && Bootable(states[0]) && i <= |attempts|
    requires forall j | 0 <= j < |attempts| :: Proper(states[j], attempts[j])
    ensures BootsGenuine(states[i], states[0], attempts[..i])
  {
    if i == 0 {
    } else {
      RunReaches(states, attempts, i - 1);
      assert attempts[..i][..i - 1] == attempts[..i - 1];
      GenuineGrows(states[i - 1], states[0], attempts[..i]);
    }
  }

  /** Rollback over whole runs: through any upgrades, downgrades, failures and crashes, `current` names a
      genuine complete version, and each completed call leaves `previous` on the version current before. */
  lemma RunsStayBootable(states: seq<Entries>, attempts: seq<Attempt>)
    requires IsRun(states, attempts) && Bootable(states[0])
    requires forall i | 0 <= i < |attempts| :: Proper(states[i], attempts[i])
    ensures forall i | 0 <= i < |states| :: BootsGenuine(states[i], states[0], attempts[..i])
    ensures forall i | 0 <= i < |attempts| :: RolledForward(states[i], states[i + 1], attempts[i])
  {
    forall i | 0 <= i < |states|
      ensures BootsGenuine(states[i], states[0], attempts[..i])
    {
      RunReaches(states, attempts, i);
    }
    forall i | 0 <= i < |attempts|
      ensures RolledForward(states[i], states[i + 1], attempts[i])
    {
      RunReaches(states, attempts, i);
      AttemptKeepsBootable(states[i], attempts[i]);
    }
  }

  lemma GenuineGrows(e: Entries, start: Entries, attempts: seq<Attempt>)
    requires attempts != [] && Proper(e, attempts[|attempts| - 1])
    requires BootsGenuine(e, start, attempts[..|attempts| - 1])
    ensures BootsGenuine(After(e, attempts[|attempts| - 1]), start, attempts)
  {
    var k := |attempts| - 1;
    AttemptKeepsBootable(e, attempts[k]);
    var next := After(e, attempts[k]);
    var n := next[CURRENT].target;
    if Offers(attempts[k].src, n) && next[n].tree == attempts[k].src[n].tree {
    } else if !(n in start && start[n].Dir? && start[n].tree == next[n].tree) {
      var i :| 0 <= i < k && Offers(attempts[..k][i].src, n) && attempts[..k][i].src[n].tree == next[n].tree;
      assert attempts[i] == attempts[..k][i];
    }
  }
}
