/** `strconv.Quote` and `strconv.Unquote`, on byte strings. */
module Quoting {
  import opened Text
  import opened Utf8

  /** `strconv.IsPrint`, on characters beyond ASCII. */
  type Printable = nat -> bool

  function HexDigit(n: nat): char
    requires n < 16
  {
    if n < 10 then '0' + n as char else 'a' + (n - 10) as char
  }

  function HexValue(c: char): Option<nat> {
    if '0' <= c <= '9' then Some((c - '0') as nat)
    else if 'a' <= c <= 'f' then Some((c - 'a') as nat + 10)
    else if 'A' <= c <= 'F' then Some((c - 'A') as nat + 10)
    else None
  }

  function HexNumber(s: string): Option<nat> {
    if s == "" then Some(0)
    else
      var high := HexNumber(s[..|s| - 1]);
      var low := HexValue(s[|s| - 1]);
      if high.Some? && low.Some? then Some(high.value * 16 + low.value) else None
  }

  /** `n` in hexadecimal, in `w` digits. */
  function Hex(n: nat, w: nat): (h: string)
    ensures |h| == w
  {
    if w == 0 then "" else Hex(n / 16, w - 1) + [HexDigit(n % 16)]
  }

  function Power16(w: nat): nat { if w == 0 then 1 else 16 * Power16(w - 1) }

  /** Some bytes of a text, as `strconv.Quote` writes them. */
  datatype Written = Written(text: string, width: nat)

  /** A character that is not printed as it is. */
  function Escape(v: nat): string {
    if v == 7 then "\\a"
    else if v == 8 then "\\b"
    else if v == 12 then "\\f"
    else if v == 10 then "\\n"
    else if v == 13 then "\\r"
    else if v == 9 then "\\t"
    else if v == 11 then "\\v"
    else if v < 0x20 || v == 0x7f then "\\x" + Hex(v, 2)
    else if v < 0x10000 then "\\u" + Hex(v, 4)
    else "\\U" + Hex(v, 8)
  }

  /** The character or byte at `i`. */
  function QuoteChar(s: string, i: nat, p: Printable): (q: Written)
    requires i < |s|
    ensures 0 < q.width && i + q.width <= |s|
  {
    match Decode(s, i)
    case None =>
      if s[i] as nat < 256 then Written("\\x" + Hex(s[i] as nat, 2), 1) else Written([s[i]], 1) // not a byte
    case Some(r) =>
      if s[i] == '"' || s[i] == '\\' then Written(['\\', s[i]], 1)
      else if ' ' <= s[i] <= '~' || (r.value >= 0x80 && p(r.value)) then Written(s[i..i + r.width], r.width)
      else Written(Escape(r.value), r.width)
  }

  function QuoteFrom(s: string, i: nat, p: Printable): string
    requires i <= |s|
    decreases |s| - i
  {
    if i == |s| then "" else QuoteChar(s, i, p).text + QuoteFrom(s, i + QuoteChar(s, i, p).width, p)
  }

  /** `strconv.Quote`. */
  function Quote(s: string, p: Printable): string { "\"" + QuoteFrom(s, 0, p) + "\"" }

  /** A character as written, and how much of the text it takes. */
  datatype Char = Char(bytes: string, length: nat)

  /** The character that stands for a broken one, U+FFFD. */
  const REPLACEMENT := [0xef as char, 0xbf as char, 0xbd as char]

  /** A character beyond ASCII that stands for itself. */
  function PlainChar(t: string): Char
    requires t != ""
  {
    match Decode(t, 0)
    case Some(r) => Char(t[..r.width], r.width)
    case None => Char(if t[0] as nat < 256 then REPLACEMENT else [t[0]], 1)
  }

  function HexEscape(t: string, digits: nat, rune: bool): Option<Char> {
    if |t| < 2 + digits then None
    else
      var v := HexNumber(t[2..2 + digits]);
      if v.None? then None
      else if !rune then (if v.value < 256 then Some(Char([v.value as char], 2 + digits)) else None)
      else
        var bytes := Encode(v.value);
        if bytes.None? then None else Some(Char(bytes.value, 2 + digits))
  }

  function OctalEscape(t: string): Option<Char> {
    if |t| < 4 || !(forall i | 1 <= i < 4 :: '0' <= t[i] <= '7') then None
    else
      var v := (t[1] - '0') as nat * 64 + (t[2] - '0') as nat * 8 + (t[3] - '0') as nat;
      if v > 255 then None else Some(Char([v as char], 4))
  }

  /** `strconv.UnquoteChar`, on the first character of a text. */
  function UnquoteChar(t: string, quote: char): (r: Option<Char>)
    requires t != ""
    ensures r.Some? ==> 0 < r.value.length <= |t|
  {
    if t[0] == quote then None
    else if t[0] != '\\' then Some(PlainChar(t))
    else if |t| == 1 then None
    else
      match t[1]
      case 'a' => Some(Char([7 as char], 2))
      case 'b' => Some(Char([8 as char], 2))
      case 'f' => Some(Char([12 as char], 2))
      case 'n' => Some(Char("\n", 2))
      case 'r' => Some(Char("\r", 2))
      case 't' => Some(Char("\t", 2))
      case 'v' => Some(Char([11 as char], 2))
      case 'x' => HexEscape(t, 2, false)
      case 'u' => HexEscape(t, 4, true)
      case 'U' => HexEscape(t, 8, true)
      case '\\' => Some(Char("\\", 2))
      case c => if '0' <= c <= '7' then OctalEscape(t) else if c == quote then Some(Char([c], 2)) else None
  }

  function UnquoteBody(t: string, quote: char): Option<string>
    decreases |t|
  {
    if t == "" then Some("")
    else if t[0] == '\n' then None
    else
      var c := UnquoteChar(t, quote);
      if c.None? then None
      else
        var rest := UnquoteBody(t[c.value.length..], quote);
        if rest.None? then None else Some(c.value.bytes + rest.value)
  }

  function WithoutReturns(s: string): string {
    if s == "" then "" else (if s[0] == '\r' then "" else [s[0]]) + WithoutReturns(s[1..])
  }

  /** `strconv.Unquote`. */
  function Unquote(s: string): Option<string> {
    if |s| < 2 || s[0] != s[|s| - 1] then None
    else
      var t := s[1..|s| - 1];
      match s[0]
      case '`' => if '`' in t then None else Some(WithoutReturns(t))
      case '"' => UnquoteBody(t, '"')
      case '\'' =>
        if t == "" then Some("")
        else if t[0] == '\n' || UnquoteChar(t, '\'').None? || UnquoteChar(t, '\'').value.length != |t| then None
        else Some(UnquoteChar(t, '\'').value.bytes)
      case _ => None
  }

  // ---------------------------------------------------------------- reading back what was written

  lemma {:induction false} HexReads(n: nat, w: nat)
    requires n < Power16(w)
    ensures HexNumber(Hex(n, w)) == Some(n)
  {
    if w == 0 {
      assert n == 0;
    } else {
      HexReads(n / 16, w - 1);
      var h := Hex(n, w);
      assert h[..|h| - 1] == Hex(n / 16, w - 1) && h[|h| - 1] == HexDigit(n % 16);
      assert HexValue(HexDigit(n % 16)) == Some(n % 16);
    }
  }

  /** An escape with digits, whatever follows it. */
  lemma {:induction false} EscapeReads(front: string, n: nat, w: nat, rune: bool, rest: string)
    requires |front| == 2 && n < Power16(w)
    requires if rune then Encode(n).Some? else n < 256
    ensures HexEscape(front + Hex(n, w) + rest, w, rune) == Some(Char(if rune then Encode(n).value else [n as char], 2 + w))
  {
    HexReads(n, w);
    assert (front + Hex(n, w) + rest)[2..2 + w] == Hex(n, w);
  }

  lemma Powers()
    ensures Power16(2) == 0x100 && Power16(4) == 0x1_0000 && Power16(8) == 0x1_0000_0000
  {
    assert Power16(1) == 16;
    assert Power16(3) == 0x1000;
    assert Power16(5) == 0x10_0000 && Power16(6) == 0x100_0000 && Power16(7) == 0x1000_0000;
  }

  lemma EscapedReads(v: nat, rest: string)
    requires Encode(v).Some? && v != '"' as nat && v != '\\' as nat && !(0x20 <= v < 0x7f)
    ensures var q := Escape(v); q != "" && q[0] == '\\' && UnquoteChar(q + rest, '"') == Some(Char(Encode(v).value, |q|))
  {
    Powers();
    var q := Escape(v);
    if |q| == 4 {
      EscapeReads("\\x", v, 2, false, rest);
    } else if |q| == 6 {
      EscapeReads("\\u", v, 4, true, rest);
    } else if |q| == 10 {
      EscapeReads("\\U", v, 8, true, rest);
    }
  }

  lemma PlainReads(s: string, i: nat, rest: string)
    requires i < |s| && Decode(s, i).Some? && s[i] != '"' && s[i] != '\\'
    ensures var w := Decode(s, i).value.width; UnquoteChar(s[i..i + w] + rest, '"') == Some(Char(s[i..i + w], w))
  {
    var w := Decode(s, i).value.width;
    var t := s[i..i + w] + rest;
    assert t[0..0 + w] == s[i..i + w] && t[0] == s[i];
    DecodeMoved(s, i, t, 0);
  }

  /** A byte that begins no character. */
  lemma {:induction false} ByteReads(c: char, rest: string)
    requires c as nat >= 0x80
    ensures c as nat < 256 ==>
      var q := "\\x" + Hex(c as nat, 2); UnquoteChar(q + rest, '"') == Some(Char([c], 4)) && |q| == 4 && q[0] == '\\'
    ensures c as nat >= 256 ==> UnquoteChar([c] + rest, '"') == Some(Char([c], 1))
  {
    if c as nat < 256 {
      Powers();
      EscapeReads("\\x", c as nat, 2, false, rest);
    } else {
      assert Decode([c] + rest, 0) == None;
    }
  }

  lemma MarkReads(c: char, rest: string)
    requires c == '"' || c == '\\'
    ensures UnquoteChar(['\\', c] + rest, '"') == Some(Char([c], 2))
  {
  }

  lemma QuoteCharReads(s: string, i: nat, p: Printable, rest: string)
    requires i < |s|
    ensures var q := QuoteChar(s, i, p);
      && q.text != "" && q.text[0] != '\n'
      && UnquoteChar(q.text + rest, '"') == Some(Char(s[i..i + q.width], |q.text|))
  {
    var q := QuoteChar(s, i, p);
    assert s[i..i + 1] == [s[i]];
    match Decode(s, i)
    case None =>
      ByteReads(s[i], rest);
    case Some(r) =>
      EncodeDecoded(s, i);
      if s[i] == '"' || s[i] == '\\' {
        MarkReads(s[i], rest);
      } else if ' ' <= s[i] <= '~' || (r.value >= 0x80 && p(r.value)) {
        PlainReads(s, i, rest);
      } else {
        EscapedReads(r.value, rest);
      }
  }

  /** The body of a string in double quotes is read as these bytes. */
  predicate Reads(body: string, bytes: string) { UnquoteBody(body, '"') == Some(bytes) }

  /** A piece of such a body is read as some bytes, whatever follows. */
  ghost predicate PieceReads(text: string, bytes: string) {
    && text != "" && text[0] != '\n'
    && forall rest: string :: UnquoteChar(text + rest, '"') == Some(Char(bytes, |text|))
  }

  function Concat(texts: seq<string>): string {
    if texts == [] then "" else texts[0] + Concat(texts[1..])
  }

  lemma {:induction false} PiecesRead(texts: seq<string>, bytes: seq<string>)
    requires |texts| == |bytes| && forall k | 0 <= k < |texts| :: PieceReads(texts[k], bytes[k])
    ensures Reads(Concat(texts), Concat(bytes))
  {
    if texts == [] {
    } else {
      PiecesRead(texts[1..], bytes[1..]);
      BodyStep(texts[0], Concat(texts[1..]), bytes[0], Concat(bytes[1..]));
    }
  }

  lemma {:induction false} BodyStep(text: string, rest: string, bytes: string, more: string)
    requires PieceReads(text, bytes) && Reads(rest, more)
    ensures Reads(text + rest, bytes + more)
  {
    assert (text + rest)[|text|..] == rest && (text + rest)[0] == text[0];
  }

  lemma CharReads(s: string, i: nat, p: Printable)
    requires i < |s|
    ensures var q := QuoteChar(s, i, p); PieceReads(q.text, s[i..i + q.width])
  {
    var q := QuoteChar(s, i, p);
    forall rest: string
      ensures UnquoteChar(q.text + rest, '"') == Some(Char(s[i..i + q.width], |q.text|))
    {
      QuoteCharReads(s, i, p, rest);
    }
    QuoteCharReads(s, i, p, "");
  }

  /** What is quoted, piece by piece. */
  lemma {:induction false} PiecesOf(s: string, i: nat, p: Printable) returns (texts: seq<string>, bytes: seq<string>)
    requires i <= |s|
    ensures |texts| == |bytes| && forall k | 0 <= k < |texts| :: PieceReads(texts[k], bytes[k])
    ensures QuoteFrom(s, i, p) == Concat(texts) && s[i..] == Concat(bytes)
    decreases |s| - i
  {
    if i == |s| {
      texts, bytes := [], [];
    } else {
      var q := QuoteChar(s, i, p);
      var ts, bs := PiecesOf(s, i + q.width, p);
      CharReads(s, i, p);
      texts, bytes := [q.text] + ts, [s[i..i + q.width]] + bs;
      assert texts[1..] == ts && bytes[1..] == bs;
      assert s[i..] == s[i..i + q.width] + s[i + q.width..];
    }
  }

  lemma {:induction false} QuoteFromReads(s: string, i: nat, p: Printable)
    requires i <= |s|
    ensures UnquoteBody(QuoteFrom(s, i, p), '"') == Some(s[i..])
  {
    var texts, bytes := PiecesOf(s, i, p);
    PiecesRead(texts, bytes);
  }

  /** `Unquote` undoes `Quote`, for every string. */
  lemma QuoteRoundTrip(s: string, p: Printable)
    ensures Unquote(Quote(s, p)) == Some(s)
  {
    QuoteFromReads(s, 0, p);
    var q := Quote(s, p);
    assert q[1..|q| - 1] == QuoteFrom(s, 0, p) && s[0..] == s;
  }

  lemma {:induction false} HexIsOneLine(n: nat, w: nat)
    ensures '\n' !in Hex(n, w)
  {
    if w == 0 {
    } else {
      HexIsOneLine(n / 16, w - 1);
    }
  }

  lemma EscapeIsOneLine(v: nat)
    ensures '\n' !in Escape(v)
  {
    HexIsOneLine(v, 2);
    HexIsOneLine(v, 4);
    HexIsOneLine(v, 8);
  }

  lemma CharIsOneLine(s: string, i: nat, p: Printable)
    requires i < |s|
    ensures '\n' !in QuoteChar(s, i, p).text
  {
    HexIsOneLine(s[i] as nat, 2);
    if Decode(s, i).Some? {
      EscapeIsOneLine(Decode(s, i).value.value);
      if s[i] != '\n' {
        NoNewlineInside(s, i);
      }
    }
  }

  /** A newline is a character of its own. */
  lemma NoNewlineInside(s: string, i: nat)
    requires i < |s| && Decode(s, i).Some? && s[i] != '\n'
    ensures '\n' !in s[i..i + Decode(s, i).value.width]
  {
    var w := Decode(s, i).value.width;
    assert forall k: nat | i < k < i + w :: Continues(s, k);
  }

  lemma {:induction false} NeitherNewline(s: string, i: nat, p: Printable, rest: string)
    requires i < |s| && rest == QuoteFrom(s, i + QuoteChar(s, i, p).width, p) && '\n' !in rest
    ensures '\n' !in QuoteFrom(s, i, p)
  {
    CharIsOneLine(s, i, p);
    assert QuoteFrom(s, i, p) == QuoteChar(s, i, p).text + rest;
  }

  lemma {:induction false} QuoteIsOneLine(s: string, i: nat, p: Printable)
    requires i <= |s|
    ensures '\n' !in QuoteFrom(s, i, p)
    decreases |s| - i
  {
    if i == |s| {
      assert QuoteFrom(s, i, p) == "";
    } else {
      var next := i + QuoteChar(s, i, p).width;
      QuoteIsOneLine(s, next, p);
      NeitherNewline(s, i, p, QuoteFrom(s, next, p));
    }
  }

  // ---------------------------------------------------------------- strings quoted by hand

  /** Plain characters that mean themselves within this quote. */
  predicate Plain(s: string, quote: char) {
    forall i | 0 <= i < |s| :: ' ' <= s[i] <= '~' && s[i] != quote && s[i] != '\\'
  }

  lemma PlainCharRead(t: string, quote: char)
    requires t != "" && ' ' <= t[0] <= '~' && t[0] != quote && t[0] != '\\'
    ensures UnquoteChar(t, quote) == Some(Char([t[0]], 1))
  {
    assert t[..1] == [t[0]];
  }

  /** Plain text is quoted as it stands. */
  lemma {:induction false} QuotePlain(s: string, i: nat, p: Printable)
    requires Plain(s, '"') && i <= |s|
    ensures QuoteFrom(s, i, p) == s[i..]
    decreases |s| - i
  {
    if i == |s| {
    } else {
      QuotePlain(s, i + 1, p);
      assert QuoteChar(s, i, p) == Written([s[i]], 1) by {
        assert s[i..i + 1] == [s[i]];
      }
      assert s[i..] == [s[i]] + s[i + 1..];
    }
  }

  lemma {:induction false} PlainBodyReads(s: string)
    requires Plain(s, '"')
    ensures UnquoteBody(s, '"') == Some(s)
  {
    if s == "" {
    } else {
      PlainCharRead(s, '"');
      PlainBodyReads(s[1..]);
      assert s == [s[0]] + s[1..];
    }
  }

  /** Plain text in double quotes is that text. */
  lemma DoubleQuoted(s: string)
    requires Plain(s, '"')
    ensures Unquote("\"" + s + "\"") == Some(s)
  {
    var q := "\"" + s + "\"";
    assert q[1..|q| - 1] == s;
    PlainBodyReads(s);
  }

  /** In single quotes stands one character; more are no quoted string. */
  lemma SingleQuoted(s: string)
    requires s != "" && Plain(s, '\'')
    ensures Unquote("'" + s + "'") == if |s| == 1 then Some(s) else None
  {
    var q := "'" + s + "'";
    assert q[1..|q| - 1] == s;
    PlainCharRead(s, '\'');
    if |s| == 1 {
      assert s == [s[0]];
    }
  }

  lemma {:induction false} NoReturns(s: string)
    requires '\r' !in s
    ensures WithoutReturns(s) == s
  {
    if s == "" {
    } else {
      NoReturns(s[1..]);
      assert s == [s[0]] + s[1..];
    }
  }

  /** Between back quotes everything means itself, backslashes and quotes too. */
  lemma BackQuoted(s: string)
    requires '`' !in s && '\r' !in s
    ensures Unquote("`" + s + "`") == Some(s)
  {
    var q := "`" + s + "`";
    assert q[1..|q| - 1] == s;
    NoReturns(s);
  }

  /** A text that does not end with the quote it begins with is no quoted string. */
  lemma NotQuoted(s: string)
    requires |s| < 2 || s[0] != s[|s| - 1] || s[0] !in {'"', '\'', '`'}
    ensures Unquote(s) == None
  {
  }
}
