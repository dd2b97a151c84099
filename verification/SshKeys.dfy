/** Authorising SSH keys: `authorizeSSHKey` and the loop of `SetAuthorizedKeys` in pkg/ssh/ssh.go, over
    `WriteFileAtomic` of pkg/util/util.go. */
module SshKeys {
  import opened Text

  datatype File = File(content: string, mode: nat, owner: nat)

  /** The files of one directory, by name. */
  type Files = map<string, File>

  const TARGET := "authorized_keys"

  function TempName(name: string, suffix: Digits): string { "." + name + suffix }

  /** A temporary file for `name`. */
  ghost predicate IsTempFor(temp: string, name: string) { exists suffix: Digits :: temp == TempName(name, suffix) }

  /** What became of fetching or reading a configured key. */
  datatype Fetched = Unavailable | Text(key: string)

  // ---------------------------------------------------------------- what the file becomes

  /** A key the file does not hold yet. */
  predicate IsNew(content: string, fetched: Fetched) {
    fetched.Text? && fetched.key != "" && !Contains(content, fetched.key)
  }

  /** One key's turn: a new key is put on a line of its own at the end, or nothing happens. */
  predicate Turn(before: string, after: string, fetched: Fetched, ok: bool) {
    && (ok ==> fetched.Text?)
    && (after == before || (IsNew(before, fetched) && after == before + fetched.key + "\n"))
    && (ok && IsNew(before, fetched) ==> after != before)
  }

  /** The content of the file before and after each key's turn. */
  predicate Turns(turns: seq<string>, keys: seq<Fetched>, oks: seq<bool>) {
    && |turns| == |keys| + 1 && |oks| == |keys|
    && forall i | 0 <= i < |keys| :: Turn(turns[i], turns[i + 1], keys[i], oks[i])
  }

  lemma PrefixContains(a: string, b: string, key: string)
    requires a <= b && Contains(a, key)
    ensures Contains(b, key)
  {
    ContainsGrows("", a, b[|a|..], key);
    assert "" + a + b[|a|..] == b;
  }

  lemma TurnMeans(before: string, after: string, fetched: Fetched, ok: bool)
    requires Turn(before, after, fetched, ok)
    ensures before <= after && (ok ==> Contains(after, fetched.key))
  {
    if ok && fetched.key == "" {
      assert ContainsAt(after, fetched.key, 0);
    } else if IsNew(before, fetched) && after != before {
      assert ContainsAt(after, fetched.key, |before|);
    }
  }

  /** The file only grows. */
  lemma {:induction false} TurnsGrow(turns: seq<string>, keys: seq<Fetched>, oks: seq<bool>, i: nat, j: nat)
    requires Turns(turns, keys, oks) && i <= j <= |keys|
    ensures turns[i] <= turns[j]
  {
    if i == j {
    } else {
      TurnsGrow(turns, keys, oks, i, j - 1);
      TurnMeans(turns[j - 1], turns[j], keys[j - 1], oks[j - 1]);
    }
  }

  /** Every key that was processed without error is in the file at the end. */
  lemma ProcessedAreContained(turns: seq<string>, keys: seq<Fetched>, oks: seq<bool>, i: nat)
    requires Turns(turns, keys, oks) && i < |keys| && oks[i]
    ensures keys[i].Text? && Contains(turns[|keys|], keys[i].key)
  {
    TurnMeans(turns[i], turns[i + 1], keys[i], oks[i]);
    TurnsGrow(turns, keys, oks, i + 1, |keys|);
    PrefixContains(turns[i + 1], turns[|keys|], keys[i].key);
  }

  /** Empty, or ending with a newline. */
  predicate WholeLines(content: string) { content == "" || content[|content| - 1] == '\n' }

  lemma {:induction false} StaysWhole(turns: seq<string>, keys: seq<Fetched>, oks: seq<bool>, i: nat)
    requires Turns(turns, keys, oks) && i <= |keys| && WholeLines(turns[0])
    ensures WholeLines(turns[i])
  {
    if i == 0 {
    } else {
      StaysWhole(turns, keys, oks, i - 1);
    }
  }

  /** In a file of whole lines, a key that was new at its turn has a line to itself at the end. */
  lemma NewKeyHasItsLine(turns: seq<string>, keys: seq<Fetched>, oks: seq<bool>, i: nat)
    requires Turns(turns, keys, oks) && i < |keys| && oks[i] && IsNew(turns[i], keys[i])
    ensures turns[i] + keys[i].key + "\n" <= turns[|keys|]
    ensures WholeLines(turns[0]) ==> WholeLines(turns[i]) && WholeLines(turns[|keys|])
  {
    TurnsGrow(turns, keys, oks, i + 1, |keys|);
    if WholeLines(turns[0]) {
      StaysWhole(turns, keys, oks, i);
      StaysWhole(turns, keys, oks, |keys|);
    }
  }

  /** A second pass with the same keys changes nothing, whatever fails in it. */
  lemma {:induction false} SecondPass(first: seq<string>, second: seq<string>, keys: seq<Fetched>, oks: seq<bool>, again: seq<bool>, i: nat)
    requires Turns(first, keys, oks) && (forall j | 0 <= j < |keys| :: oks[j])
    requires Turns(second, keys, again) && second[0] == first[|keys|] && i <= |keys|
    ensures second[i] == second[0]
    decreases i
  {
    if i == 0 {
    } else {
      SecondPass(first, second, keys, oks, again, i - 1);
      ProcessedAreContained(first, keys, oks, i - 1);
    }
  }

  // ---------------------------------------------------------------- the directory as it changes

  class Directory {
    var files: Files
    /** Every state the directory has been in. */
    ghost var history: seq<Files>

    constructor (initial: Files)
      ensures files == initial && history == []
    {
      files, history := initial, [];
    }

    method Write(next: Files)
      modifies this
      ensures files == next && history == old(history) + [next]
    {
      files := next;
      history := history + [next];
    }

    method Fails(mayFail: bool) returns (fails: bool)
      ensures fails ==> mayFail
    {
      fails := *;
      fails := fails && mayFail;
    }

    /** `ioutil.TempFile` tries names until it finds one that is free. */
    method FreeTempName(name: string) returns (temp: string)
      ensures IsTempFor(temp, name) && temp !in files && |temp| > |name|
    {
      ghost var bound := MaxLength(files.Keys);
      var suffix: Digits := "0";
      temp := TempName(name, suffix);
      while temp in files
        invariant temp == TempName(name, suffix)
        decreases bound - |temp|
      {
        suffix := suffix + "0";
        temp := TempName(name, suffix);
      }
    }

    /** `WriteFileAtomic`. At every moment the file is wholly as before or wholly new, and no other file
        is touched; the deferred removal takes away at most the temporary file. */
    method WriteFileAtomic(name: string, data: string, perm: nat, mayFail: bool) returns (ok: bool, ghost temp: string)
      modifies this
      ensures IsTempFor(temp, name) && temp !in old(files) && temp != name
      ensures old(history) <= history
      ensures forall i | |old(history)| <= i < |history| ::
        || SameBut(history[i], old(files), {temp})
        || (name in history[i] && history[i][name] == File(data, perm, 0)
            && forall n | n in old(files) && n != name :: n in history[i] && history[i][n] == old(files)[n])
      ensures ok ==> files == old(files)[name := File(data, perm, 0)]
      ensures !ok ==> mayFail && SameBut(files, old(files), {temp})
    {
      var t := FreeTempName(name);
      temp := t;
      var fails := Fails(mayFail);
      if fails {
        return false, temp;
      }
      Write(files[t := File("", 0x180, 0)]);
      ok := FillAndRename(name, t, data, perm, mayFail);
      // deferred: os.Remove(temp)
      fails := Fails(mayFail);
      if !fails && t in files {
        Write(files - {t});
      }
    }

    /** Write the temporary file and set its mode. */
    method FillTemp(temp: string, data: string, perm: nat, mayFail: bool) returns (ok: bool)
      requires temp in files
      modifies this
      ensures old(history) <= history
      ensures forall i | |old(history)| <= i < |history| :: SameBut(history[i], old(files), {temp})
      ensures SameBut(files, old(files), {temp})
      ensures ok ==> files == old(files)[temp := File(data, perm, 0)]
      ensures !mayFail ==> ok
    {
      var fails := Fails(mayFail);
      if fails { // a write that stopped somewhere
        var n: nat :| n <= |data|;
        Write(files[temp := files[temp].(content := data[..n])]);
        return false;
      }
      Write(files[temp := File(data, files[temp].mode, 0)]);
      fails := Fails(mayFail); // close, chmod
      if fails {
        return false;
      }
      Write(files[temp := File(data, perm, 0)]);
      ok := true;
    }

    method FillAndRename(name: string, temp: string, data: string, perm: nat, mayFail: bool) returns (ok: bool)
      requires temp in files && name != temp
      modifies this
      ensures old(history) <= history
      ensures forall i | |old(history)| <= i < |history| ::
        SameBut(history[i], old(files), {temp}) || history[i] == old(files)[name := File(data, perm, 0)] - {temp}
      ensures ok ==> files == old(files)[name := File(data, perm, 0)] - {temp}
      ensures !ok ==> SameBut(files, old(files), {temp})
      ensures !mayFail ==> ok
    {
      ok := FillTemp(temp, data, perm, mayFail);
      if !ok {
        return;
      }
      var fails := Fails(mayFail); // rename
      if fails {
        return false;
      }
      assert (files - {temp})[name := files[temp]] == old(files)[name := File(data, perm, 0)] - {temp};
      Write((files - {temp})[name := files[temp]]);
    }

    /** What the authorized file holds. */
    function Content(): string
      reads this
    {
      ContentOf(files)
    }

    /** Since then the authorized file has held the one text or the other, and never went away. */
    ghost predicate Between(since: nat, existed: bool, a: string, b: string)
      reads this
    {
      since <= |history| && forall i | since <= i < |history| ::
        (existed ==> TARGET in history[i]) && (ContentOf(history[i]) == a || ContentOf(history[i]) == b)
    }

    /** `authorizeSSHKey`, given what became of the key. */
    method AuthorizeSshKey(fetched: Fetched, owner: nat, mayFail: bool) returns (ok: bool)
      modifies this
      ensures old(history) <= history && (TARGET in old(files) ==> TARGET in files)
      ensures Turn(old(Content()), Content(), fetched, ok)
      ensures fetched.Unavailable? || fetched.key == "" ==> ok == fetched.Text? && files == old(files) && history == old(history)
      ensures fetched.Text? && fetched.key != "" ==>
        && Between(|old(history)|, TARGET in old(files), old(Content()),
                   if IsNew(old(Content()), fetched) then old(Content()) + fetched.key + "\n" else old(Content()))
        && (ok ==> TARGET in files && files[TARGET].owner == owner)
        && (ok ==> files[TARGET].mode == if TARGET in old(files) then old(files)[TARGET].mode else 0x180)
      ensures !mayFail && fetched.Text? ==> ok
    {
      if fetched.Unavailable? {
        return false;
      }
      var key := fetched.key;
      if key == "" {
        return true;
      }
      var fails := Fails(mayFail); // stat
      if fails {
        return false;
      }
      ghost var start := history;
      if TARGET !in files {
        ok := CreateTarget(mayFail);
        if !ok {
          return;
        }
      }
      ghost var mid := history;
      ok := AddToTarget(key, owner, mayFail);
      assert forall i | |start| <= i < |mid| :: history[i] == mid[i];
    }

    /** The rest, once the file is there. */
    method AddToTarget(key: string, owner: nat, mayFail: bool) returns (ok: bool)
      requires TARGET in files && key != ""
      modifies this
      ensures old(history) <= history && TARGET in files
      ensures var text := if Contains(old(Content()), key) then old(Content()) else old(Content()) + key + "\n";
        && Between(|old(history)|, true, old(Content()), text)
        && (Content() == old(Content()) || Content() == text)
        && (ok ==> files[TARGET] == File(text, old(files)[TARGET].mode, owner))
      ensures !mayFail ==> ok
    {
      ghost var before := Content();
      var fails := Fails(mayFail); // read
      if fails {
        return false;
      }
      var text := files[TARGET].content;
      if !Contains(text, key) {
        text := text + key;
        text := text + "\n";
      }
      ghost var mid := |history|;
      ghost var temp;
      ok, temp := WriteFileAtomic(TARGET, text, files[TARGET].mode, mayFail);
      assert forall i | mid <= i < |history| ::
        TARGET in history[i] && (ContentOf(history[i]) == before || ContentOf(history[i]) == text);
      if !ok {
        return;
      }
      fails := Fails(mayFail); // chown
      if fails {
        return false;
      }
      Write(files[TARGET := files[TARGET].(owner := owner)]);
    }

    /** Create the file, empty and private. */
    method CreateTarget(mayFail: bool) returns (ok: bool)
      requires TARGET !in files
      modifies this
      ensures old(history) <= history
      ensures forall i | |old(history)| <= i < |history| :: ContentOf(history[i]) == ""
      ensures Content() == ""
      ensures ok ==> files == old(files)[TARGET := File("", 0x180, 0)]
      ensures !mayFail ==> ok
    {
      var fails := Fails(mayFail);
      if fails {
        return false;
      }
      Write(files[TARGET := File("", 0x1b6, 0)]);
      fails := Fails(mayFail); // chmod, close, stat
      if fails {
        return false;
      }
      Write(files[TARGET := File("", 0x180, 0)]);
      ok := true;
    }

    /** Since then the authorized file has always begun with this text, and never went away. */
    ghost predicate Grown(since: nat, existed: bool, text: string)
      reads this
    {
      && since <= |history| && (existed ==> TARGET in files) && text <= Content()
      && forall i | since <= i < |history| :: (existed ==> TARGET in history[i]) && text <= ContentOf(history[i])
    }

    /** One turn of the loop of `SetAuthorizedKeys`, seen from the text the file began with. */
    method TryKey(fetched: Fetched, owner: nat, mayFail: bool, ghost since: nat, ghost existed: bool, ghost text: string)
      returns (ok: bool)
      requires Grown(since, existed, text)
      modifies this
      ensures Grown(since, existed, text) && old(history) <= history
      ensures Turn(old(Content()), Content(), fetched, ok)
      ensures !mayFail && fetched.Text? ==> ok
    {
      ghost var was, start := Content(), history;
      ok := AuthorizeSshKey(fetched, owner, mayFail);
      TurnMeans(was, Content(), fetched, ok);
      forall i | since <= i < |history|
        ensures (existed ==> TARGET in history[i]) && text <= ContentOf(history[i])
      {
        if i < |start| {
          assert history[i] == start[i];
        }
      }
    }

    /** The loop of `SetAuthorizedKeys`: a key that fails is logged, and the next one tried. */
    method SetAuthorizedKeys(keys: seq<Fetched>, owner: nat, mayFail: bool) returns (ghost turns: seq<string>, oks: seq<bool>)
      modifies this
      ensures Turns(turns, keys, oks) && turns[0] == old(Content()) && turns[|keys|] == Content()
      ensures old(history) <= history && Grown(|old(history)|, TARGET in old(files), old(Content()))
      ensures !mayFail ==> forall i | 0 <= i < |keys| :: oks[i] == keys[i].Text?
    {
      oks := [];
      var i := 0;
      ghost var since, existed, text := |history|, TARGET in files, Content();
      turns := [text];
      while i < |keys|
        invariant 0 <= i <= |keys| && old(history) <= history && Grown(since, existed, text)
        invariant Turns(turns, keys[..i], oks) && turns[0] == text && turns[i] == Content()
        invariant !mayFail ==> forall j | 0 <= j < i :: oks[j] == keys[j].Text?
      {
        var ok := TryKey(keys[i], owner, mayFail, since, existed, text);
        OneMoreTurn(turns, keys, oks, i, Content(), ok);
        turns := turns + [Content()];
        oks := oks + [ok];
        i := i + 1;
      }
      assert keys[..i] == keys;
    }
  }

  lemma OneMoreTurn(turns: seq<string>, keys: seq<Fetched>, oks: seq<bool>, i: nat, after: string, ok: bool)
    requires i < |keys| && Turns(turns, keys[..i], oks) && Turn(turns[i], after, keys[i], ok)
    ensures Turns(turns + [after], keys[..i + 1], oks + [ok])
  {
    var t, k, o := turns + [after], keys[..i + 1], oks + [ok];
    forall j | 0 <= j < i + 1
      ensures Turn(t[j], t[j + 1], k[j], o[j])
    {
      if j < i {
        assert Turn(turns[j], turns[j + 1], keys[..i][j], oks[j]);
      }
    }
  }

  function ContentOf(files: Files): string { if TARGET in files then files[TARGET].content else "" }
}
