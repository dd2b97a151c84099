/** Strings as bytes: characters in UTF-8, and the blanks that `strings.TrimSpace` takes off. A Dafny
    character stands for a byte. */
module Utf8 {
  import opened Text

  /** A character and how many bytes it takes. */
  datatype Rune = Rune(value: nat, width: nat)

  /** A byte that continues a character. */
  predicate Continues(s: string, i: nat) { i < |s| && 0x80 <= s[i] as nat < 0xc0 }

  function Bits(s: string, i: nat): nat
    requires Continues(s, i)
  {
    s[i] as nat - 0x80
  }

  /** `utf8.DecodeRuneInString` at byte `i`; nothing for a byte that begins no character. */
  function Decode(s: string, i: nat): (r: Option<Rune>)
    requires i < |s|
    ensures r.Some? ==> 1 <= r.value.width <= 4 && i + r.value.width <= |s|
  {
    var c := s[i] as nat;
    if c < 0x80 then Some(Rune(c, 1))
    else if 0xc2 <= c < 0xe0 && Continues(s, i + 1) then
      Some(Rune((c - 0xc0) * 64 + Bits(s, i + 1), 2))
    else if 0xe0 <= c < 0xf0 && Continues(s, i + 1) && Continues(s, i + 2) then
      var v := (c - 0xe0) * 4096 + Bits(s, i + 1) * 64 + Bits(s, i + 2);
      if v < 0x800 || 0xd800 <= v < 0xe000 then None else Some(Rune(v, 3))
    else if 0xf0 <= c < 0xf5 && Continues(s, i + 1) && Continues(s, i + 2) && Continues(s, i + 3) then
      var v := (c - 0xf0) * 262144 + Bits(s, i + 1) * 4096 + Bits(s, i + 2) * 64 + Bits(s, i + 3);
      if v < 0x10000 || v > 0x10ffff then None else Some(Rune(v, 4))
    else None
  }

  /** The bytes of a character. */
  function Encode(v: nat): Option<string> {
    if v < 0x80 then Some([v as char])
    else if v < 0x800 then Some([(0xc0 + v / 64) as char, (0x80 + v % 64) as char])
    else if 0xd800 <= v < 0xe000 || v > 0x10ffff then None
    else if v < 0x10000 then Some([(0xe0 + v / 4096) as char, (0x80 + v / 64 % 64) as char, (0x80 + v % 64) as char])
    else Some([(0xf0 + v / 262144) as char, (0x80 + v / 4096 % 64) as char, (0x80 + v / 64 % 64) as char, (0x80 + v % 64) as char])
  }

  /** Encoding a decoded character gives its bytes back. */
  lemma EncodeDecoded(s: string, i: nat)
    requires i < |s| && Decode(s, i).Some?
    ensures var r := Decode(s, i).value; Encode(r.value) == Some(s[i..i + r.width])
  {
    var r := Decode(s, i).value;
    if r.width == 1 {
      assert s[i..i + 1] == [s[i]];
    } else if r.width == 2 {
      SplitTwo(s[i] as nat - 0xc0, Bits(s, i + 1));
      assert s[i..i + 2] == [s[i], s[i + 1]];
    } else if r.width == 3 {
      SplitThree(s[i] as nat - 0xe0, Bits(s, i + 1), Bits(s, i + 2));
      assert s[i..i + 3] == [s[i], s[i + 1], s[i + 2]];
    } else if r.width == 4 {
      SplitFour(s[i] as nat - 0xf0, Bits(s, i + 1), Bits(s, i + 2), Bits(s, i + 3));
      assert s[i..i + 4] == [s[i], s[i + 1], s[i + 2], s[i + 3]];
    }
  }

  lemma SplitTwo(a: nat, b: nat)
    requires b < 64
    ensures var v := a * 64 + b; v / 64 == a && v % 64 == b
  {
  }

  lemma SplitThree(a: nat, b: nat, c: nat)
    requires b < 64 && c < 64
    ensures var v := a * 4096 + b * 64 + c; v / 4096 == a && v / 64 % 64 == b && v % 64 == c
  {
    SplitTwo(a * 64 + b, c);
    SplitTwo(a, b);
    assert a * 4096 + b * 64 + c == (a * 64 + b) * 64 + c;
  }

  lemma SplitFour(a: nat, b: nat, c: nat, d: nat)
    requires b < 64 && c < 64 && d < 64
    ensures var v := a * 262144 + b * 4096 + c * 64 + d;
      v / 262144 == a && v / 4096 % 64 == b && v / 64 % 64 == c && v % 64 == d
  {
    SplitThree(a, b, c);
    SplitTwo((a * 64 + b) * 64 + c, d);
    SplitTwo(a * 64 + b, c);
    assert a * 262144 + b * 4096 + c * 64 + d == ((a * 64 + b) * 64 + c) * 64 + d;
  }

  /** A character is decoded from its own bytes, wherever they stand. */
  lemma DecodeMoved(s: string, i: nat, t: string, j: nat)
    requires i < |s| && Decode(s, i).Some?
    requires var w := Decode(s, i).value.width; j + w <= |t| && t[j..j + w] == s[i..i + w]
    ensures Decode(t, j) == Decode(s, i)
  {
    var w := Decode(s, i).value.width;
    var a, b := s[i..i + w], t[j..j + w];
    assert a[0] == s[i] && b[0] == t[j];
    assert w > 1 ==> a[1] == s[i + 1] && b[1] == t[j + 1];
    assert w > 2 ==> a[2] == s[i + 2] && b[2] == t[j + 2];
    assert w > 3 ==> a[3] == s[i + 3] && b[3] == t[j + 3];
  }

  /** What stands behind a plain character does not matter. */
  lemma DecodeBefore(a: string, b: string)
    requires a != "" && b != "" && b[0] as nat < 0x80
    ensures Decode(a + b, 0) == Decode(a, 0)
  {
    var s := a + b;
    assert s[|a|] == b[0] && !Continues(s, |a|);
    assert forall k: nat | k < |a| :: s[k] == a[k] && (Continues(s, k) <==> Continues(a, k));
  }

  // ---------------------------------------------------------------- blanks

  /** `unicode.IsSpace`. */
  predicate IsSpace(v: nat) {
    || v in {0x20, 0x85, 0xa0, 0x1680, 0x2028, 0x2029, 0x202f, 0x205f, 0x3000}
    || 9 <= v <= 13 // tab, newline, vertical tab, form feed, carriage return
    || 0x2000 <= v <= 0x200a
  }

  /** The width of the blank a text begins with, if it does. */
  function BlankAhead(s: string): (w: nat)
    ensures w <= |s|
  {
    if s != "" && Decode(s, 0).Some? && IsSpace(Decode(s, 0).value.value) then Decode(s, 0).value.width else 0
  }

  /** A blank of this width ends the text. */
  predicate EndsBlank(s: string, w: nat) {
    1 <= w <= |s| && Decode(s, |s| - w).Some? && Decode(s, |s| - w).value.width == w && IsSpace(Decode(s, |s| - w).value.value)
  }

  /** The width of the blank a text ends with, if it does. */
  function BlankBehind(s: string): (w: nat)
    ensures w <= |s|
  {
    if EndsBlank(s, 1) then 1 else if EndsBlank(s, 2) then 2 else if EndsBlank(s, 3) then 3 else 0
  }

  function TrimLeft(s: string): string
    decreases |s|
  {
    if BlankAhead(s) > 0 then TrimLeft(s[BlankAhead(s)..]) else s
  }

  function TrimRight(s: string): string
    decreases |s|
  {
    if BlankBehind(s) > 0 then TrimRight(s[..|s| - BlankBehind(s)]) else s
  }

  /** `strings.TrimSpace`. */
  function TrimSpace(s: string): string { TrimRight(TrimLeft(s)) }

  lemma {:induction false} TrimLeftSuffix(s: string)
    ensures var t := TrimLeft(s);
      |t| <= |s| && t == s[|s| - |t|..] && BlankAhead(t) == 0 && forall c | c in t :: c in s
    decreases |s|
  {
    var w := BlankAhead(s);
    if w == 0 {
    } else {
      TrimLeftSuffix(s[w..]);
      assert forall c | c in s[w..] :: c in s;
    }
  }

  lemma {:induction false} TrimRightPrefix(s: string)
    ensures var t := TrimRight(s); t <= s && forall c | c in t :: c in s
    decreases |s|
  {
    if BlankBehind(s) == 0 {
    } else {
      TrimRightPrefix(s[..|s| - BlankBehind(s)]);
    }
  }

  /** What is cut off at the end of a text does not put a blank in front. */
  lemma NoBlankBefore(t: string, s: string)
    requires t <= s && BlankAhead(s) == 0
    ensures BlankAhead(t) == 0
  {
    if t != "" && Decode(t, 0).Some? {
      var w := Decode(t, 0).value.width;
      assert s[..w] == t[..w];
      DecodeMoved(t, 0, s, 0);
    }
  }

  /** The blanks in front, when a plain character that is not a blank follows the text. */
  lemma {:induction false} TrimLeftAppend(a: string, b: string)
    requires b != "" && ' ' < b[0] <= '~'
    ensures TrimLeft(a + b) == TrimLeft(a) + b
    decreases |a|
  {
    if a == "" {
      assert a + b == b;
    } else {
      DecodeBefore(a, b);
      var w := BlankAhead(a);
      assert BlankAhead(a + b) == w;
      if w > 0 {
        assert (a + b)[w..] == a[w..] + b;
        TrimLeftAppend(a[w..], b);
      }
    }
  }

  /** A text that ends with a plain character other than a blank is trimmed in front only. */
  lemma {:induction false} TrimSpaceKeepsEnd(s: string)
    requires s != "" && ' ' < s[|s| - 1] <= '~'
    ensures TrimSpace(s) == TrimLeft(s)
  {
    var a, b := s[..|s| - 1], s[|s| - 1..];
    TrimLeftAppend(a, b);
    assert s == a + b;
    PlainEnd(TrimLeft(a) + b);
  }

  lemma PlainEnd(t: string)
    requires t != "" && ' ' < t[|t| - 1] <= '~'
    ensures BlankBehind(t) == 0
  {
    assert !Continues(t, |t| - 1);
    forall w: nat | 1 <= w <= 3
      ensures !EndsBlank(t, w)
    {
    }
  }

  /** Some plain blanks. */
  predicate Blanks(a: string) { forall i | 0 <= i < |a| :: a[i] == ' ' || a[i] == '\t' || a[i] == '\r' }

  /** A text without blanks at its ends. */
  predicate Trimmed(s: string) { BlankAhead(s) == 0 && BlankBehind(s) == 0 }

  lemma {:induction false} BlanksInFront(a: string, s: string)
    requires Blanks(a)
    ensures TrimLeft(a + s) == TrimLeft(s)
  {
    if a == "" {
      assert a + s == s;
    } else {
      assert (a + s)[0] == a[0] && (a + s)[1..] == a[1..] + s;
      BlanksInFront(a[1..], s);
    }
  }

  lemma {:induction false} BlanksBehind(s: string, b: string)
    requires Blanks(b)
    ensures TrimRight(s + b) == TrimRight(s)
    decreases |b|
  {
    if b == "" {
      assert s + b == s;
    } else {
      var n := |b| - 1;
      assert (s + b)[|s + b| - 1] == b[n] && (s + b)[..|s + b| - 1] == s + b[..n];
      BlanksBehind(s, b[..n]);
    }
  }

  /** `TrimSpace` takes off what was put around a trimmed text. */
  lemma {:induction false} TrimSpaceMeans(a: string, s: string, b: string)
    requires Blanks(a) && Trimmed(s) && s != "" && Blanks(b)
    ensures TrimSpace(a + s + b) == s
  {
    assert a + s + b == a + (s + b);
    BlanksInFront(a, s + b);
    NoBlankGrows(s, b);
    NothingInFront(s + b);
    BlanksBehind(s, b);
    NothingAtTheEnd(s);
  }

  lemma {:induction false} NothingInFront(s: string)
    requires BlankAhead(s) == 0
    ensures TrimLeft(s) == s
  {
  }

  lemma {:induction false} NothingAtTheEnd(s: string)
    requires BlankBehind(s) == 0
    ensures TrimRight(s) == s
  {
  }

  /** Blanks behind a text do not put a blank in front of it. */
  lemma NoBlankGrows(s: string, b: string)
    requires s != "" && BlankAhead(s) == 0 && Blanks(b)
    ensures BlankAhead(s + b) == 0
  {
    if b == "" {
      assert s + b == s;
    } else {
      DecodeBefore(s, b);
    }
  }

  /** A text keeps its end behind anything that ends with a plain character. */
  lemma EndStays(front: string, s: string)
    requires front != "" && front[|front| - 1] as nat < 0x80 && s != "" && BlankBehind(s) == 0
    ensures BlankBehind(front + s) == 0
  {
    forall w: nat | 1 <= w <= 3
      ensures !EndsBlank(front + s, w)
    {
      if EndsBlank(front + s, w) {
        EndIsWithin(front, s, w);
        assert false;
      }
    }
  }

  lemma EndIsWithin(front: string, s: string, w: nat)
    requires front != "" && front[|front| - 1] as nat < 0x80 && s != "" && EndsBlank(front + s, w)
    ensures EndsBlank(s, w)
  {
    var t := front + s;
    assert t[|front| - 1] == front[|front| - 1] && !Continues(t, |front| - 1);
    assert forall k: nat | |t| - w < k < |t| :: Continues(t, k);
    assert w <= |s|;
    var i, j := |t| - w, |s| - w;
    assert s[j..j + w] == t[i..i + w];
    DecodeMoved(t, i, s, j);
  }
}
