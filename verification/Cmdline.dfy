/** Settings on the kernel command line: `readCmdline` of pkg/config/read.go. The regular expression has
    already cut the line into items. */
module Cmdline {
  import opened Text

  datatype Value = Str(text: string) | List(texts: seq<string>) | Sub(entries: Data)

  type Data = map<string, Value>

  type Path = seq<string>

  // ---------------------------------------------------------------- one item

  /** `strings.Trim(s, "\"")`. */
  function TrimQuotes(s: string): string
    decreases |s|
  {
    if s == "" then s
    else if s[0] == '"' then TrimQuotes(s[1..])
    else if s[|s| - 1] == '"' then TrimQuotes(s[..|s| - 1])
    else s
  }

  /** `strings.Split(s, ".")`. */
  function SplitDots(s: string): (path: Path)
    ensures path != []
    decreases |s|
  {
    var i := IndexOf(s, '.');
    if i == |s| then [s] else [s[..i]] + SplitDots(s[i + 1..])
  }

  datatype Item = Item(path: Path, value: string)

  function ParseItem(text: string): (item: Item)
    ensures item.path != []
  {
    var i := IndexOf(text, '=');
    if i == |text| then Item(SplitDots(TrimQuotes(text)), "true")
    else Item(SplitDots(TrimQuotes(text[..i])), TrimQuotes(text[i + 1..]))
  }

  /** Nothing but quotes. */
  predicate Quotes(a: string) { forall i | 0 <= i < |a| :: a[i] == '"' }

  predicate Unquoted(s: string) { s != "" ==> s[0] != '"' && s[|s| - 1] != '"' }

  lemma {:induction false} TrimQuotesMeans(a: string, s: string, b: string)
    requires Quotes(a) && Unquoted(s) && Quotes(b)
    ensures TrimQuotes(a + s + b) == s
    decreases |a| + |b|
  {
    var t := a + s + b;
    if a != "" {
      assert t[0] == a[0] && t[1..] == a[1..] + s + b;
      TrimQuotesMeans(a[1..], s, b);
    } else if b == "" {
      assert t == s;
    } else if s == "" {
      assert t[0] == b[0] && t[1..] == "" + "" + b[1..];
      TrimQuotesMeans("", "", b[1..]);
    } else {
      var c := b[..|b| - 1];
      assert t[0] == s[0] && t[|t| - 1] == b[|b| - 1] && t[..|t| - 1] == a + s + c;
      TrimQuotesMeans(a, s, c);
    }
  }

  function JoinDots(path: Path): string
    requires path != []
  {
    if |path| == 1 then path[0] else path[0] + "." + JoinDots(path[1..])
  }

  lemma {:induction false} SplitAtDot(a: string, rest: string)
    requires '.' !in a
    ensures SplitDots(a + "." + rest) == [a] + SplitDots(rest)
  {
    IndexOfAppend(a, rest, '.');
    var s := a + "." + rest;
    assert s == a + ['.'] + rest;
    assert s[..|a|] == a && s[|a| + 1..] == rest;
  }

  lemma {:induction false} SplitJoined(path: Path)
    requires path != [] && forall i | 0 <= i < |path| :: '.' !in path[i]
    ensures SplitDots(JoinDots(path)) == path
  {
    if |path| == 1 {
      assert IndexOf(path[0], '.') == |path[0]|;
    } else {
      SplitAtDot(path[0], JoinDots(path[1..]));
      SplitJoined(path[1..]);
    }
  }

  /** An item as it is written: a dotted key, an equals sign and a value, with quotes around either. */
  lemma {:induction false} SettingRead(a: string, path: Path, b: string, c: string, value: string, d: string)
    requires path != [] && (forall i | 0 <= i < |path| :: '.' !in path[i]) && Unquoted(JoinDots(path))
    requires Quotes(a) && Quotes(b) && Quotes(c) && Quotes(d) && Unquoted(value)
    requires '=' !in JoinDots(path)
    ensures ParseItem(a + JoinDots(path) + b + "=" + (c + value + d)) == Item(path, value)
  {
    var key, rest := a + JoinDots(path) + b, c + value + d;
    var text := key + ['='] + rest;
    IndexOfAppend(key, rest, '=');
    assert key + "=" + rest == text;
    assert text[..|key|] == key && text[|key| + 1..] == rest;
    TrimQuotesMeans(a, JoinDots(path), b);
    TrimQuotesMeans(c, value, d);
    SplitJoined(path);
  }

  /** A key without a value is switched on. */
  lemma {:induction false} SwitchRead(a: string, path: Path, b: string)
    requires path != [] && (forall i | 0 <= i < |path| :: '.' !in path[i]) && Unquoted(JoinDots(path))
    requires Quotes(a) && Quotes(b) && '=' !in JoinDots(path)
    ensures ParseItem(a + JoinDots(path) + b) == Item(path, "true")
  {
    assert IndexOf(a + JoinDots(path) + b, '=') == |a + JoinDots(path) + b|;
    TrimQuotesMeans(a, JoinDots(path), b);
    SplitJoined(path);
  }

  // ---------------------------------------------------------------- nested maps

  /** `values.GetValue`. */
  function Get(data: Data, path: Path): Option<Value>
    decreases |path|
  {
    if path == [] || path[0] !in data then None
    else if |path| == 1 then Some(data[path[0]])
    else
      match data[path[0]]
      case Sub(entries) => Get(entries, path[1..])
      case _ => None
  }

  /** `values.PutValue`: it gives up when something that is not a map is in the way. */
  function Put(data: Data, value: Value, path: Path): Data
    decreases |path|
  {
    if path == [] then data
    else if |path| == 1 then data[path[0] := value]
    else if path[0] !in data then data[path[0] := Sub(Put(map[], value, path[1..]))]
    else
      match data[path[0]]
      case Sub(entries) => data[path[0] := Sub(Put(entries, value, path[1..]))]
      case _ => data
  }

  function AddItem(data: Data, item: Item): Data {
    match Get(data, item.path)
    case None => Put(data, Str(item.value), item.path)
    case Some(Str(v)) => Put(data, List([v, item.value]), item.path)
    case Some(List(vs)) => Put(data, List(vs + [item.value]), item.path)
    case Some(Sub(_)) => data
  }

  function AddItems(items: seq<Item>): Data {
    if items == [] then map[] else AddItem(AddItems(items[..|items| - 1]), items[|items| - 1])
  }

  lemma {:induction false} OneItemMore(items: seq<Item>, i: nat)
    requires i < |items|
    ensures AddItems(items[..i + 1]) == AddItem(AddItems(items[..i]), items[i])
  {
    assert items[..i + 1][..i] == items[..i];
  }

  /** `readCmdline`. */
  method ReadCmdline(texts: seq<string>) returns (data: Data)
    ensures data == AddItems(seq(|texts|, i requires 0 <= i < |texts| => ParseItem(texts[i])))
  {
    ghost var items := seq(|texts|, i requires 0 <= i < |texts| => ParseItem(texts[i]));
    data := map[];
    var i := 0;
    while i < |texts|
      invariant 0 <= i <= |texts| && data == AddItems(items[..i])
    {
      var item := ParseItem(texts[i]);
      var existing := Get(data, item.path);
      OneItemMore(items, i);
      if existing.Some? {
        match existing.value {
          case Str(v) => data := Put(data, List([v, item.value]), item.path);
          case List(vs) => data := Put(data, List(vs + [item.value]), item.path);
          case Sub(_) =>
        }
      } else {
        data := Put(data, Str(item.value), item.path);
      }
      i := i + 1;
    }
    assert items[..i] == items;
  }

  // ---------------------------------------------------------------- what should come out

  /** The values given for a path, in order of appearance. */
  function ValuesOf(items: seq<Item>, path: Path): seq<string> {
    if items == [] then []
    else
      var n := |items| - 1;
      ValuesOf(items[..n], path) + if items[n].path == path then [items[n].value] else []
  }

  /** A plain string for one value, a list for more. */
  function Accumulated(values: seq<string>): Option<Value> {
    if values == [] then None else if |values| == 1 then Some(Str(values[0])) else Some(List(values))
  }

  predicate HasPath(items: seq<Item>, path: Path) {
    exists i :: 0 <= i < |items| && items[i].path == path
  }

  /** No path is the beginning of another. */
  predicate PrefixFree(items: seq<Item>) {
    forall i, j | 0 <= i < |items| && 0 <= j < |items| :: !(items[i].path < items[j].path)
  }

  predicate Incomparable(p: Path, q: Path) { !(p <= q) && !(q <= p) }

  /** Nothing but maps on the way to `path`. */
  ghost predicate Open(data: Data, path: Path) {
    forall r | r < path && r != [] :: Get(data, r).None? || Get(data, r).value.Sub?
  }

  lemma OpenBelow(data: Data, path: Path, entries: Data)
    requires Open(data, path) && |path| > 1 && path[0] in data && data[path[0]] == Sub(entries)
    ensures Open(entries, path[1..])
  {
    forall r | r < path[1..] && r != []
      ensures Get(entries, r).None? || Get(entries, r).value.Sub?
    {
      var q := [path[0]] + r;
      assert q < path && q[1..] == r;
      assert Get(data, q) == Get(entries, r);
    }
  }

  lemma {:induction false} PutHere(data: Data, value: Value, path: Path)
    requires path != [] && Open(data, path)
    ensures Get(Put(data, value, path), path) == Some(value)
    decreases |path|
  {
    if |path| <= 1 {
    } else {
      if path[0] !in data {
        assert Open(map[], path[1..]);
        PutHere(map[], value, path[1..]);
      } else {
        assert path[..1] < path && Get(data, path[..1]) == Some(data[path[0]]);
        OpenBelow(data, path, data[path[0]].entries);
        PutHere(data[path[0]].entries, value, path[1..]);
      }
    }
  }

  lemma {:induction false} PutElsewhere(data: Data, value: Value, path: Path, q: Path)
    requires Incomparable(path, q)
    ensures Get(Put(data, value, path), q) == Get(data, q)
    decreases |path|
  {
    if path == [] || q == [] || |path| == 1 || |q| == 1 || path[0] != q[0] {
    } else {
      assert path == [path[0]] + path[1..] && q == [q[0]] + q[1..];
      assert Incomparable(path[1..], q[1..]);
      if path[0] !in data {
        PutElsewhere(map[], value, path[1..], q[1..]);
      } else if data[path[0]].Sub? {
        PutElsewhere(data[path[0]].entries, value, path[1..], q[1..]);
      }
    }
  }

  /** On the way to the new value there are maps. */
  lemma {:induction false} PutOnTheWay(data: Data, value: Value, path: Path, q: Path)
    requires q < path && q != [] && Open(data, path)
    ensures var g := Get(Put(data, value, path), q); g.Some? && g.value.Sub?
    decreases |path|
  {
    assert path[0] == q[0];
    if path[0] in data {
      assert path[..1] < path && Get(data, path[..1]) == Some(data[path[0]]);
      OpenBelow(data, path, data[path[0]].entries);
    }
    if |q| == 1 {
    } else {
      var entries := if path[0] in data then data[path[0]].entries else map[];
      assert path[0] !in data ==> Open(map[], path[1..]);
      PutOnTheWay(entries, value, path[1..], q[1..]);
    }
  }

  /** Below a plain value there is nothing. */
  lemma {:induction false} NothingBelow(data: Data, path: Path, q: Path)
    requires path < q && Get(data, path).Some? && !Get(data, path).value.Sub?
    ensures Get(data, q) == None
    decreases |path|
  {
    assert path[0] == q[0];
    if |path| <= 1 {
    } else {
      NothingBelow(data[path[0]].entries, path[1..], q[1..]);
    }
  }

  /** A plain value on the way, or a map at the end of it, and the item is dropped. */
  lemma {:induction false} PutGivesUp(data: Data, value: Value, path: Path, r: Path)
    requires r < path && r != [] && Get(data, r).Some? && !Get(data, r).value.Sub?
    ensures Put(data, value, path) == data && Get(data, path) == None
    decreases |path|
  {
    assert r[0] == path[0];
    if |r| == 1 {
    } else {
      PutGivesUp(data[path[0]].entries, value, path[1..], r[1..]);
    }
  }

  lemma {:induction false} BlockedIsDropped(data: Data, item: Item, r: Path)
    requires r <= item.path && r != [] && Get(data, r).Some?
    requires Get(data, r).value.Sub? <==> r == item.path
    ensures AddItem(data, item) == data
  {
    if r != item.path {
      PutGivesUp(data, Str(item.value), item.path, r);
    }
  }

  // ---------------------------------------------------------------- the whole line

  predicate LeadsOn(items: seq<Item>, path: Path) {
    exists i :: 0 <= i < |items| && path < items[i].path
  }

  /** What the data have at `p` once `items` have been added. */
  ghost predicate HoldsAt(data: Data, items: seq<Item>, p: Path) {
    var v := Get(data, p);
    && (HasPath(items, p) ==> v == Accumulated(ValuesOf(items, p)))
    && (v.Some? && !v.value.Sub? ==> HasPath(items, p))
    && (v.Some? && v.value.Sub? ==> LeadsOn(items, p))
  }

  /** The data hold the values of exactly these items. */
  ghost predicate Holds(data: Data, items: seq<Item>) {
    forall p: Path | p != [] :: HoldsAt(data, items, p)
  }

  lemma {:induction false} ValuesExist(items: seq<Item>, path: Path)
    ensures HasPath(items, path) <==> ValuesOf(items, path) != []
  {
    if items == [] {
    } else {
      var n := |items| - 1;
      ValuesExist(items[..n], path);
      assert HasPath(items, path) <==> HasPath(items[..n], path) || items[n].path == path by {
        assert forall i | 0 <= i < n :: items[..n][i] == items[i];
      }
    }
  }

  lemma {:induction false} MoreItems(items: seq<Item>, item: Item, p: Path)
    ensures HasPath(items + [item], p) <==> HasPath(items, p) || item.path == p
    ensures LeadsOn(items + [item], p) <==> LeadsOn(items, p) || p < item.path
    ensures ValuesOf(items + [item], p) == if item.path == p then ValuesOf(items, p) + [item.value] else ValuesOf(items, p)
  {
    var all := items + [item];
    assert all[..|items|] == items && all[|items|] == item;
    if HasPath(items, p) {
      var i :| 0 <= i < |items| && items[i].path == p;
      assert all[i].path == p;
    }
    if LeadsOn(items, p) {
      var i :| 0 <= i < |items| && p < items[i].path;
      assert p < all[i].path;
    }
  }

  /** A new path meets only maps on its way, and no map at its end. */
  lemma WayIsOpen(data: Data, items: seq<Item>, item: Item)
    requires Holds(data, items) && PrefixFree(items + [item]) && item.path != []
    ensures Open(data, item.path)
    ensures !LeadsOn(items, item.path)
  {
    var all := items + [item];
    assert all[|items|] == item;
    forall r | HasPath(items, r)
      ensures !(r < item.path)
    {
      var i :| 0 <= i < |items| && items[i].path == r;
      assert all[i].path == r;
    }
    forall r | r < item.path && r != []
      ensures Get(data, r).None? || Get(data, r).value.Sub?
    {
      assert HoldsAt(data, items, r);
    }
    forall i | 0 <= i < |items|
      ensures !(item.path < items[i].path)
    {
      assert all[i] == items[i];
    }
  }

  /** What one more item does to any path. */
  lemma {:induction false} AddOneAt(data: Data, items: seq<Item>, item: Item, value: Value, p: Path)
    requires item.path != [] && Open(data, item.path) && p != [] && HoldsAt(data, items, p)
    requires PrefixFree(items + [item])
    requires value == Accumulated(ValuesOf(items + [item], item.path)).GetOr(value) && !value.Sub?
    requires Accumulated(ValuesOf(items + [item], item.path)).Some?
    ensures HoldsAt(Put(data, value, item.path), items + [item], p)
  {
    MoreItems(items, item, p);
    if p == item.path {
      PutHere(data, value, p);
    } else if p < item.path {
      PutOnTheWay(data, value, item.path, p);
      NotBoth(items + [item], p, |items|);
    } else if item.path < p {
      PutHere(data, value, item.path);
      NothingBelow(Put(data, value, item.path), item.path, p);
      assert !HasPath(items, p) by {
        assert (items + [item])[|items|] == item;
        assert forall i | 0 <= i < |items| :: (items + [item])[i] == items[i];
      }
    } else {
      PutElsewhere(data, value, item.path, p);
    }
  }

  lemma NotBoth(items: seq<Item>, p: Path, i: nat)
    requires PrefixFree(items) && i < |items| && p < items[i].path
    ensures !HasPath(items, p)
  {
  }

  lemma AddOne(data: Data, items: seq<Item>, item: Item)
    requires Holds(data, items) && PrefixFree(items + [item]) && item.path != []
    ensures Holds(AddItem(data, item), items + [item])
  {
    WayIsOpen(data, items, item);
    var value := AddedValue(data, items, item);
    forall p: Path | p != []
      ensures HoldsAt(AddItem(data, item), items + [item], p)
    {
      AddOneAt(data, items, item, value, p);
    }
  }

  /** The item puts the accumulated values at its path. */
  lemma AddedValue(data: Data, items: seq<Item>, item: Item) returns (value: Value)
    requires HoldsAt(data, items, item.path) && !LeadsOn(items, item.path)
    ensures Some(value) == Accumulated(ValuesOf(items + [item], item.path)) && !value.Sub?
    ensures AddItem(data, item) == Put(data, value, item.path)
  {
    MoreItems(items, item, item.path);
    ValuesExist(items, item.path);
    var values := ValuesOf(items, item.path);
    assert Get(data, item.path) == Accumulated(values);
    value := Accumulated(values + [item.value]).value;
    if |values| == 1 {
      assert values + [item.value] == [values[0], item.value];
    }
  }

  lemma {:induction false} AllHeld(items: seq<Item>)
    requires PrefixFree(items) && forall i | 0 <= i < |items| :: items[i].path != []
    ensures Holds(AddItems(items), items)
  {
    if items == [] {
    } else {
      var n := |items| - 1;
      assert items == items[..n] + [items[n]];
      assert forall i | 0 <= i < n :: items[..n][i] == items[i];
      AllHeld(items[..n]);
      AddOne(AddItems(items[..n]), items[..n], items[n]);
    }
  }

  /** Accumulation, exactly: every path holds its values in order of appearance if, and only if, no path
      is the beginning of another. */
  lemma {:induction false} EveryPathHoldsItsValues(items: seq<Item>)
    requires forall i | 0 <= i < |items| :: items[i].path != []
    ensures (forall i | 0 <= i < |items| ::
                Get(AddItems(items), items[i].path) == Accumulated(ValuesOf(items, items[i].path)))
       <==> PrefixFree(items)
  {
    if PrefixFree(items) {
      AllHeld(items);
      forall i | 0 <= i < |items|
        ensures Get(AddItems(items), items[i].path) == Accumulated(ValuesOf(items, items[i].path))
      {
        assert HoldsAt(AddItems(items), items, items[i].path);
      }
    } else {
      var i, j :| 0 <= i < |items| && 0 <= j < |items| && items[i].path < items[j].path;
      NotBothHeld(AddItems(items), items, i, j);
    }
  }

  lemma {:induction false} NotBothHeld(data: Data, items: seq<Item>, i: nat, j: nat)
    requires i < |items| && j < |items| && items[i].path != [] && items[i].path < items[j].path
    ensures Get(data, items[i].path) != Accumulated(ValuesOf(items, items[i].path))
         || Get(data, items[j].path) != Accumulated(ValuesOf(items, items[j].path))
  {
    ValuesExist(items, items[i].path);
    ValuesExist(items, items[j].path);
    var v := Get(data, items[i].path);
    if v.Some? && !v.value.Sub? {
      NothingBelow(data, items[i].path, items[j].path);
    }
  }
}
