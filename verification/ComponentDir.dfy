/** `CopyComponent` as it runs: steps that change the component directory in place, early returns, and a
    stack of deferred calls run last in, first out. It is proved to follow `Component.Copy`. */
module ComponentDirs {
  import opened Component
  import opened Text

  datatype Deferred = RemoveLink | RemoveTemp(name: Name) | Restore(v: Name)

  function RunOne(w: World, d: Deferred, f: Faults): World {
    match d
    case RemoveLink => Remove(w, CURRENT_TMP, f.undoLink).w
    case RemoveTemp(name) => RemoveAll(w, name, f)
    case Restore(v) => Rename(w, Old(v), v, f.undoMove).w
  }

  /** The deferred calls, last in, first out. */
  function Unwind(w: World, stack: seq<Deferred>, f: Faults): World
    decreases |stack|
  {
    if stack == [] then w
    else Unwind(RunOne(w, stack[|stack| - 1], f), stack[..|stack| - 1], f)
  }

  lemma {:induction false} UnwindPush(w: World, stack: seq<Deferred>, d: Deferred, f: Faults)
    ensures Unwind(w, stack + [d], f) == Unwind(RunOne(w, d, f), stack, f)
  {
    assert (stack + [d])[..|stack|] == stack;
  }

  lemma {:induction false} UnwindTwo(w: World, a: Deferred, b: Deferred, f: Faults)
    ensures Unwind(w, [] + [a] + [b], f) == RunOne(RunOne(w, b, f), a, f)
  {
    UnwindPush(w, [] + [a], b, f);
    UnwindPush(RunOne(w, b, f), [], a, f);
  }

  class ComponentDir {
    var entries: Entries
    ghost var log: seq<Event>

    ghost function View(): World
      reads this
    {
      World(entries, log)
    }

    constructor (initial: Entries)
      ensures View() == World(initial, [])
    {
      entries := initial;
      log := [];
    }

    method Write(e: Entries)
      modifies this
      ensures View() == old(View()).Write(e)
    {
      entries := e;
      log := log + [Wrote(e)];
    }

    method DoSymlink(target: Name, name: Name, fault: bool) returns (ok: bool)
      modifies this
      ensures Result(View(), ok) == Symlink(old(View()), target, name, fault)
    {
      ok := !fault && name !in entries;
      if ok {
        Write(entries[name := Link(target)]);
      }
    }

    method DoMkdirTemp(name: Name, fault: bool) returns (ok: bool)
      modifies this
      ensures Result(View(), ok) == MkdirTemp(old(View()), name, fault)
    {
      ok := !fault && name !in entries;
      if ok {
        Write(entries[name := Dir(0x1c0, map[])]);
      }
    }

    method DoChurn(name: Name, mode: nat, partial: seq<Tree>)
      modifies this
      ensures View() == Churn(old(View()), name, mode, partial)
    {
      var i := 0;
      while i < |partial|
        invariant 0 <= i <= |partial|
        invariant Churn(View(), name, mode, partial[i..]) == Churn(old(View()), name, mode, partial)
      {
        Write(entries[name := Dir(mode, partial[i])]);
        assert partial[i..][1..] == partial[i + 1..];
        i := i + 1;
      }
    }

    method DoCopyInto(src: Node, name: Name, f: Faults) returns (ok: bool)
      requires name in entries && entries[name].Dir?
      modifies this
      ensures Result(View(), ok) == CopyInto(old(View()), src, name, f)
    {
      if !src.Dir? {
        return false;
      }
      ChurnFrame(View(), name, entries[name].mode, f.copyPartial);
      DoChurn(name, entries[name].mode, f.copyPartial);
      var node := if f.copy then entries[name] else entries[name].(tree := src.tree);
      Write(entries[name := node]);
      var moded := if f.copyChmod then node else node.(mode := src.mode);
      Write(entries[name := moded]);
      ok := !f.copy;
    }

    method DoRename(from: Name, to: Name, fault: bool) returns (ok: bool)
      modifies this
      ensures Result(View(), ok) == Rename(old(View()), from, to, fault)
    {
      ok := !fault && from in entries && !(to in entries && (entries[to].Dir? || entries[from].Dir?));
      if ok {
        Write((entries - {from})[to := entries[from]]);
      }
    }

    method DoRemove(name: Name, fault: bool) returns (ok: bool)
      modifies this
      ensures Result(View(), ok) == Remove(old(View()), name, fault)
    {
      ok := !fault && name in entries && !(entries[name].Dir? && entries[name].tree != map[]);
      if ok {
        Write(entries - {name});
      }
    }

    method DoRemoveAll(name: Name, f: Faults)
      modifies this
      ensures View() == RemoveAll(old(View()), name, f)
    {
      if name in entries {
        if entries[name].Dir? {
          DoChurn(name, entries[name].mode, f.wipePartial);
        }
        if !f.wipe {
          Write(entries - {name});
        }
      }
    }

    method DoChmod(name: Name, mode: nat, fault: bool)
      modifies this
      ensures View() == Chmod(old(View()), name, mode, fault)
    {
      if !fault && name in entries && entries[name].Dir? {
        Write(entries[name := entries[name].(mode := mode)]);
      }
    }

    method DoCopyLink(from: Name, to: Name, fault: bool)
      modifies this
      ensures View() == CopyLink(old(View()), from, to, fault)
    {
      if !fault && from in entries && to !in entries {
        Write(entries[to := entries[from]]);
      }
    }

    method RunDeferred(d: Deferred, f: Faults)
      modifies this
      ensures View() == RunOne(old(View()), d, f)
    {
      match d {
        case RemoveLink => var _ := DoRemove(CURRENT_TMP, f.undoLink);
        case RemoveTemp(name) => DoRemoveAll(name, f);
        case Restore(v) => var _ := DoRename(Old(v), v, f.undoMove);
      }
    }

    /** Rename the copy into place, then replace `previous` and `current`. */
    method DoSwitch(v: Name, mode: nat, tmp: Name, f: Faults) returns (copied: bool)
      modifies this
      ensures var s := Switch(old(View()), v, mode, tmp, f);
        View() == s.w && copied == s.copied == s.ok
    {
      copied := DoRename(tmp, v, f.place);
      if copied {
        DoChmod(v, mode, f.chmod);
        var _ := DoRemove(PREVIOUS, f.removePrevious);
        DoCopyLink(CURRENT, PREVIOUS, f.copyPrevious);
        copied := DoRename(CURRENT_TMP, CURRENT, f.switch);
      }
    }

    /** Move an existing version aside, if it can be, and switch; `deferred` grows by the way back. */
    method DoMoveAside(v: Name, mode: nat, tmp: Name, f: Faults, stack: seq<Deferred>)
      returns (copied: bool, deferred: seq<Deferred>)
      modifies this
      ensures var s := MoveAside(old(View()), v, mode, tmp, f);
        && Unwind(s.w, stack, f) == Unwind(View(), deferred, f)
        && copied == s.copied == s.ok
    {
      deferred := stack;
      if !f.statDest && Stat(entries, v).Some? {
        if StatIsDir(entries, v) {
          var ok := DoRename(v, Old(v), f.moveAside);
          if !ok {
            return false, deferred;
          }
          deferred := deferred + [Restore(v)];
          copied := DoSwitch(v, mode, tmp, f);
          UnwindPush(View(), stack, Restore(v), f);
          return;
        }
        var _ := DoRemove(v, f.removeFile); // if this fails, so does the rename in the switch
      }
      copied := DoSwitch(v, mode, tmp, f);
    }

    /** The rest of `CopyComponent` after the remount, up to whichever return is reached, and the calls
        deferred by then. */
    method Install(v: Name, src: Node, mode: nat, f: Faults)
      returns (copied: bool, deferred: seq<Deferred>)
      modifies this
      ensures var s := WithLink(old(View()), v, src, mode, f);
        s.w == Unwind(View(), deferred, f) && copied == s.copied == s.ok
    {
      var tmp := v + f.suffix;
      deferred := [];
      var ok := DoSymlink(v, CURRENT_TMP, f.symlink);
      if !ok {
        return false, deferred;
      }
      deferred := deferred + [RemoveLink];
      ghost var linked := View();
      ok := DoMkdirTemp(tmp, f.tempDir);
      if !ok {
        UnwindPush(View(), [], RemoveLink, f);
        return false, deferred;
      }
      deferred := deferred + [RemoveTemp(tmp)];
      ok := DoCopyInto(src, tmp, f);
      if ok {
        ghost var ready := View();
        ghost var s := MoveAside(ready, v, mode, tmp, f);
        copied, deferred := DoMoveAside(v, mode, tmp, f, deferred);
        UnwindTwo(s.w, RemoveLink, RemoveTemp(tmp), f);
        assert WithTemp(linked, v, src, mode, f) == s.(w := RemoveAll(s.w, tmp, f));
      } else {
        copied := false;
        UnwindTwo(View(), RemoveLink, RemoveTemp(tmp), f);
        assert WithTemp(linked, v, src, mode, f) == Failed(RemoveAll(View(), tmp, f));
      }
    }

    method CopyComponent(src: Entries, remount: bool, f: Faults) returns (copied: bool, ok: bool)
      modifies this
      ensures var s := Copy(old(View()), src, remount, f);
        View() == s.w && copied == s.copied && ok == s.ok
    {
      var srcVersion := ComponentVersion(src, CURRENT);
      if f.statSrc || srcVersion.None? {
        return false, false;
      }
      if !f.statDst && ComponentVersion(entries, CURRENT) == srcVersion {
        return false, true;
      }
      if remount {
        if f.remount {
          return false, false;
        }
        log := log + [Remounted];
      }
      var v := srcVersion.value;
      var deferred;
      copied, deferred := Install(v, src[v], Stat(src, v).value.mode, f);
      ok := copied;
      while deferred != []
        invariant Unwind(View(), deferred, f) == Copy(old(View()), src, remount, f).w
        decreases |deferred|
      {
        var d := deferred[|deferred| - 1];
        deferred := deferred[..|deferred| - 1];
        RunDeferred(d, f);
      }
    }
  }
}
