/** `/etc/environment`: read, merge and write back, `ApplyEnvironment` of pkg/cc/funcs.go. Strings are byte
    strings; a character stands for a byte. */
module Environment {
  import opened Text
  import opened Utf8
  import opened Quoting

  type Env = map<string, string>

  /** `bufio.Scanner` gives up at the first line that does not fit its buffer with its newline. */
  const MAX_LINE: nat := 65535

  /** The lines of a file; a last line without newline counts unless it is empty. */
  function Lines(file: string): seq<string>
    decreases |file|
  {
    if file == "" then []
    else
      var i := IndexOf(file, '\n');
      if i == |file| then [file] else [file[..i]] + Lines(file[i + 1..])
  }

  /** The lines before the first overlong one. */
  function Scanned(lines: seq<string>): seq<string> {
    if lines == [] || |lines[0]| > MAX_LINE then [] else [lines[0]] + Scanned(lines[1..])
  }

  /** A line without its `export`; comments are nothing. */
  function Uncommented(raw: string): Option<string> {
    var line := TrimSpace(raw);
    if "#" <= line then None
    else if "export" <= line then Some(TrimSpace(line[6..]))
    else Some(TrimSpace(line))
  }

  /** A key and the text after the equals sign, if there is one. */
  function SplitEntry(entry: string): Option<(string, Option<string>)> {
    if |entry| <= 1 then None
    else
      var i := IndexOf(entry, '=');
      if i == |entry| then Some((entry, None)) else Some((entry[..i], Some(entry[i + 1..])))
  }

  function SplitLine(raw: string): Option<(string, Option<string>)> {
    match Uncommented(raw) case None => None case Some(entry) => SplitEntry(entry)
  }

  function Value(text: Option<string>): string {
    if text.None? then "" else Unquote(text.value).GetOr(text.value)
  }

  function ParseLine(raw: string): Option<(string, string)> {
    match SplitLine(raw)
    case None => None
    case Some((key, text)) => Some((key, Value(text)))
  }

  function ParseLines(lines: seq<string>): Env {
    if lines == [] then map[]
    else
      var env := ParseLines(lines[..|lines| - 1]);
      match ParseLine(lines[|lines| - 1])
      case None => env
      case Some((key, value)) => env[key := value]
  }

  /** The environment a file holds. */
  function Parse(file: string): Env { ParseLines(Scanned(Lines(file))) }

  function Line(key: string, q: string): string { key + "=" + q }

  function Entry(key: string, value: string, p: Printable): string { Line(key, Quote(value, p)) }

  function Entries(env: Env, order: seq<string>, p: Printable): seq<string>
    requires forall k | k in order :: k in env
  {
    seq(|order|, i requires 0 <= i < |order| => Entry(order[i], env[order[i]], p))
  }

  function JoinLines(lines: seq<string>): string {
    if lines == [] then "" else lines[0] + "\n" + JoinLines(lines[1..])
  }

  /** The file for the keys in `order`. */
  function Print(env: Env, order: seq<string>, p: Printable): string
    requires forall k | k in order :: k in env
  {
    JoinLines(Entries(env, order, p))
  }

  /** What any key read from a file is like. */
  predicate Clean(key: string) {
    '\n' !in key && '=' !in key && BlankAhead(key) == 0
  }

  /** Keys that survive being written and read back. */
  predicate KeyOk(key: string) {
    Clean(key) && !("#" <= key) && !("export" <= key)
  }

  // ---------------------------------------------------------------- one line

  /** What is written after the equals sign: no newline in it, and a quote at its end. */
  predicate Quoted(q: string) {
    |q| > 1 && q[|q| - 1] == '"' && '\n' !in q
  }

  lemma QuoteIsQuoted(value: string, p: Printable)
    ensures Quoted(Quote(value, p)) && Value(Some(Quote(value, p))) == value
  {
    QuoteIsOneLine(value, 0, p);
    QuoteRoundTrip(value, p);
  }

  lemma {:induction false} LineTrimmed(key: string, q: string)
    requires Quoted(q)
    ensures TrimSpace(Line(key, q)) == Line(TrimLeft(key), q)
  {
    var tail := "=" + q;
    assert Line(key, q) == key + tail && Line(TrimLeft(key), q) == TrimLeft(key) + tail;
    assert Line(key, q)[|Line(key, q)| - 1] == q[|q| - 1];
    TrimSpaceKeepsEnd(Line(key, q));
    TrimLeftAppend(key, tail);
  }

  lemma CleanStart(key: string, q: string)
    requires Clean(key) && Quoted(q)
    ensures TrimSpace(Line(key, q)) == Line(key, q)
  {
    LineTrimmed(key, q);
  }

  lemma SplitAtEquals(key: string, q: string)
    requires '=' !in key
    ensures var line := Line(key, q); IndexOf(line, '=') == |key| && line[..|key|] == key && line[|key| + 1..] == q
  {
    IndexOfAppend(key, q, '=');
    assert key + ['='] + q == Line(key, q);
  }

  lemma NoExport(key: string, q: string)
    requires '=' !in key
    ensures "export" <= Line(key, q) <==> "export" <= key
    ensures "#" <= Line(key, q) <==> "#" <= key
  {
    var line := Line(key, q);
    if |key| < 6 {
      assert line[|key|] == '=' && forall i | 0 <= i < 6 :: "export"[i] != '=';
    } else {
      assert line[..6] == key[..6];
    }
    assert line[0] == if key == "" then '=' else key[0];
  }

  lemma SplitEntryAt(key: string, q: string)
    requires '=' !in key && Quoted(q)
    ensures SplitEntry(Line(key, q)) == Some((key, Some(q)))
  {
    SplitAtEquals(key, q);
  }

  lemma NothingToTrim(line: string)
    requires TrimSpace(line) == line && !("#" <= line) && !("export" <= line)
    ensures Uncommented(line) == Some(line)
  {
  }

  lemma ExportTrimmed(line: string)
    requires TrimSpace(line) == line && !("#" <= line) && "export" <= line
    ensures Uncommented(line) == Some(TrimSpace(line[6..]))
  {
  }

  lemma OkLineReads(key: string, q: string)
    requires KeyOk(key) && Quoted(q)
    ensures SplitLine(Line(key, q)) == Some((key, Some(q)))
  {
    CleanStart(key, q);
    NoExport(key, q);
    NothingToTrim(Line(key, q));
    SplitEntryAt(key, q);
  }

  /** A key that looks like a comment is lost; one that starts with `export` comes back shorter. */
  lemma BadLineReads(key: string, q: string)
    requires Clean(key) && !KeyOk(key) && Quoted(q)
    ensures var r := SplitLine(Line(key, q)); r.None? || |r.value.0| < |key|
  {
    CleanStart(key, q);
    NoExport(key, q);
    if "#" <= key {
      assert Uncommented(Line(key, q)).None?;
    } else {
      ExportDropped(key, q);
      var short := TrimLeft(key[6..]);
      TrimLeftSuffix(key[6..]);
      assert '=' !in key[6..];
      SplitEntryAt(short, q);
    }
  }

  lemma ExportDropped(key: string, q: string)
    requires "export" <= key && Quoted(q)
    requires TrimSpace(Line(key, q)) == Line(key, q) && !("#" <= Line(key, q))
    ensures Uncommented(Line(key, q)) == Some(Line(TrimLeft(key[6..]), q))
  {
    var line := Line(key, q);
    assert "export" <= line && line[6..] == Line(key[6..], q);
    ExportTrimmed(line);
    LineTrimmed(key[6..], q);
  }

  lemma TrimmedIsClean(s: string)
    requires '\n' !in s
    ensures var t := TrimSpace(s); '\n' !in t && BlankAhead(t) == 0
  {
    TrimLeftSuffix(s);
    TrimRightPrefix(TrimLeft(s));
    NoBlankBefore(TrimSpace(s), TrimLeft(s));
  }

  lemma ParsedKeyIsClean(raw: string)
    requires '\n' !in raw
    ensures SplitLine(raw).Some? ==> Clean(SplitLine(raw).value.0)
  {
    TrimmedIsClean(raw);
    var line := TrimSpace(raw);
    var cut := if "export" <= line then line[6..] else line;
    TrimmedIsClean(cut);
    if Uncommented(raw).Some? {
      EntryKeyIsClean(TrimSpace(cut));
    }
  }

  lemma EntryKeyIsClean(entry: string)
    requires '\n' !in entry && BlankAhead(entry) == 0
    ensures SplitEntry(entry).Some? ==> Clean(SplitEntry(entry).value.0)
  {
    var i := IndexOf(entry, '=');
    assert entry[..|entry|] == entry;
    assert forall c | c in entry[..i] :: c in entry;
  }

  // ---------------------------------------------------------------- whole files

  lemma {:induction false} LinesHaveNoNewline(file: string)
    ensures forall l | l in Lines(file) :: '\n' !in l
    decreases |file|
  {
    if file == "" {
    } else {
      var i := IndexOf(file, '\n');
      if i < |file| {
        LinesHaveNoNewline(file[i + 1..]);
      } else {
        assert file[..i] == file;
      }
    }
  }

  lemma {:induction false} FirstLine(line: string, rest: string)
    requires '\n' !in line
    ensures Lines(line + "\n" + rest) == [line] + Lines(rest)
  {
    IndexOfAppend(line, rest, '\n');
    var file := line + "\n" + rest;
    assert file == line + ['\n'] + rest;
    assert file[..|line|] == line && file[|line| + 1..] == rest;
  }

  lemma {:induction false} JoinedLines(lines: seq<string>)
    requires forall l | l in lines :: '\n' !in l
    ensures Lines(JoinLines(lines)) == lines
  {
    if lines == [] {
    } else {
      FirstLine(lines[0], JoinLines(lines[1..]));
      JoinedLines(lines[1..]);
    }
  }

  lemma PrintedLines(env: Env, order: seq<string>, p: Printable)
    requires forall k | k in order :: k in env && '\n' !in k
    ensures Lines(Print(env, order, p)) == Entries(env, order, p)
  {
    forall l | l in Entries(env, order, p)
      ensures '\n' !in l
    {
      var i :| 0 <= i < |order| && l == Entry(order[i], env[order[i]], p);
      QuoteIsQuoted(env[order[i]], p);
      assert order[i] in order;
    }
    JoinedLines(Entries(env, order, p));
  }

  lemma {:induction false} ShortLinesScanned(lines: seq<string>)
    requires forall l | l in lines :: |l| <= MAX_LINE
    ensures Scanned(lines) == lines
  {
    if lines == [] {
    } else {
      ShortLinesScanned(lines[1..]);
    }
  }

  lemma {:induction false} ScannedAreLines(lines: seq<string>)
    ensures forall l | l in Scanned(lines) :: l in lines
  {
    if lines == [] || |lines[0]| > MAX_LINE {
    } else {
      ScannedAreLines(lines[1..]);
    }
  }

  /** Every key of an environment comes from a line. */
  lemma {:induction false} KeyFromLine(lines: seq<string>, key: string) returns (i: nat)
    requires key in ParseLines(lines)
    ensures i < |lines| && SplitLine(lines[i]).Some? && SplitLine(lines[i]).value.0 == key
  {
    var n := |lines| - 1;
    var last := SplitLine(lines[n]);
    if last.Some? && last.value.0 == key {
      i := n;
    } else {
      i := KeyFromLine(lines[..n], key);
    }
  }

  lemma ParsedKeysAreClean(file: string)
    ensures forall k | k in Parse(file) :: Clean(k)
  {
    forall k | k in Parse(file)
      ensures Clean(k)
    {
      var lines := Scanned(Lines(file));
      var i := KeyFromLine(lines, k);
      ScannedAreLines(Lines(file));
      LinesHaveNoNewline(file);
      assert lines[i] in lines;
      ParsedKeyIsClean(lines[i]);
    }
  }

  lemma EntryReads(key: string, value: string, p: Printable)
    requires KeyOk(key)
    ensures ParseLine(Entry(key, value, p)) == Some((key, value))
  {
    QuoteIsQuoted(value, p);
    OkLineReads(key, Quote(value, p));
  }

  lemma {:induction false} LastLine(lines: seq<string>, key: string, value: string)
    requires lines != [] && ParseLine(lines[|lines| - 1]) == Some((key, value))
    ensures ParseLines(lines) == ParseLines(lines[..|lines| - 1])[key := value]
  {
  }

  /** The entries for the given keys. */
  function Restrict(env: Env, order: seq<string>): Env
    requires forall k | k in order :: k in env
  {
    if order == [] then map[]
    else
      var n := |order| - 1;
      Restrict(env, order[..n])[order[n] := env[order[n]]]
  }

  lemma {:induction false} RestrictAt(env: Env, order: seq<string>, key: string)
    requires forall k | k in order :: k in env
    ensures key in Restrict(env, order) <==> key in order
    ensures key in order ==> Restrict(env, order)[key] == env[key]
  {
    if order == [] {
    } else {
      var n := |order| - 1;
      RestrictAt(env, order[..n], key);
      assert key in order <==> key in order[..n] || key == order[n];
    }
  }

  /** Reading the lines written so far gives the part of the environment written so far. */
  lemma {:induction false} EntriesRead(env: Env, order: seq<string>, p: Printable)
    requires forall k | k in order :: k in env && KeyOk(k)
    ensures ParseLines(Entries(env, order, p)) == Restrict(env, order)
  {
    if order == [] {
    } else {
      var n := |order| - 1;
      EntriesRead(env, order[..n], p);
      EntryReads(order[n], env[order[n]], p);
      var lines := Entries(env, order, p);
      assert lines[..n] == Entries(env, order[..n], p);
      LastLine(lines, order[n], env[order[n]]);
    }
  }

  /** If no key is lost or renamed, no key is bad: the longest bad key could only come from a longer one.
      This holds for as many of the lines as are read. */
  lemma LongestBadKey(env: Env, order: seq<string>, p: Printable, m: nat, bad: set<string>)
    requires IsOrder(order, env) && m <= |order| && bad == (set k | k in env && !KeyOk(k)) && bad != {}
    requires forall k | k in env :: Clean(k)
    ensures ParseLines(Entries(env, order, p)[..m]) != env
  {
    var longest := PickLongest(bad);
    var lines := Entries(env, order, p)[..m];
    if longest in ParseLines(lines) {
      var i := KeyFromLine(lines, longest);
      var k := order[i];
      assert lines[i] == Entry(k, env[k], p);
      QuoteIsQuoted(env[k], p);
      if KeyOk(k) {
        OkLineReads(k, Quote(env[k], p));
      } else {
        BadLineReads(k, Quote(env[k], p));
      }
      assert false;
    }
  }

  lemma {:induction false} PickLongest(keys: set<string>) returns (longest: string)
    requires keys != {}
    ensures longest in keys && forall k | k in keys :: |k| <= |longest|
    decreases keys
  {
    longest :| longest in keys;
    if keys == {longest} {
    } else {
      var other := PickLongest(keys - {longest});
      longest := if |other| > |longest| then other else longest;
    }
  }

  /** The scanner reads some of the first lines, and no overlong one. */
  lemma {:induction false} ScannedPrefix(lines: seq<string>) returns (m: nat)
    ensures m <= |lines| && Scanned(lines) == lines[..m] && forall l | l in lines[..m] :: |l| <= MAX_LINE
  {
    if lines == [] || |lines[0]| > MAX_LINE {
      m := 0;
    } else {
      var rest := ScannedPrefix(lines[1..]);
      m := rest + 1;
      assert lines[..m] == [lines[0]] + lines[1..][..rest];
    }
  }

  /** The key is a proper one, and the line written for it fits the scanner's buffer. */
  predicate EntryOk(env: Env, key: string, p: Printable)
    requires key in env
  {
    KeyOk(key) && |Entry(key, env[key], p)| <= MAX_LINE
  }

  /** Written and read back, an environment is the same exactly when every entry is a proper one. This
      holds for all environments and every order of writing. */
  lemma ReadBack(env: Env, order: seq<string>, p: Printable)
    requires IsOrder(order, env)
    ensures Parse(Print(env, order, p)) == env <==> AllOk(env, p)
  {
    if AllOk(env, p) {
      GoodReadsBack(env, order, p);
    } else {
      BadReadsDiffer(env, order, p);
    }
  }

  predicate AllOk(env: Env, p: Printable) { forall k | k in env :: EntryOk(env, k, p) }

  predicate AllKeysOk(env: Env) { forall k | k in env :: KeyOk(k) }

  predicate AllClean(env: Env) { forall k | k in env :: Clean(k) }

  lemma GoodReadsBack(env: Env, order: seq<string>, p: Printable)
    requires IsOrder(order, env) && AllOk(env, p)
    ensures Parse(Print(env, order, p)) == env
  {
    assert forall k | k in env :: EntryOk(env, k, p);
    PrintedLines(env, order, p);
    forall l | l in Entries(env, order, p)
      ensures |l| <= MAX_LINE
    {
      var i :| 0 <= i < |order| && l == Entry(order[i], env[order[i]], p);
      assert EntryOk(env, order[i], p);
    }
    ShortLinesScanned(Entries(env, order, p));
    OkReadsBack(env, order, p);
  }

  lemma BadReadsDiffer(env: Env, order: seq<string>, p: Printable)
    requires IsOrder(order, env) && !AllOk(env, p)
    ensures Parse(Print(env, order, p)) != env
  {
    if AllClean(env) {
      PrintedLines(env, order, p);
      var m := ScannedPrefix(Entries(env, order, p));
      PrefixDiffers(env, order, p, m);
    } else {
      ParsedKeysAreClean(Print(env, order, p));
    }
  }

  lemma PrefixDiffers(env: Env, order: seq<string>, p: Printable, m: nat)
    requires IsOrder(order, env) && !AllOk(env, p) && AllClean(env) && m <= |order|
    requires forall l | l in Entries(env, order, p)[..m] :: |l| <= MAX_LINE
    ensures ParseLines(Entries(env, order, p)[..m]) != env
  {
    var bad := set k | k in env && !KeyOk(k);
    if bad == {} {
      assert AllKeysOk(env) by {
        assert forall k | k in env :: KeyOk(k) <==> k !in bad;
      }
      var k :| k in env && !EntryOk(env, k, p);
      var i :| 0 <= i < |order| && order[i] == k;
      OverlongIsLost(env, order, p, m, i);
    } else {
      LongestBadKey(env, order, p, m, bad);
    }
  }

  lemma ShortOnesRead(lines: seq<string>, m: nat, i: nat)
    requires m <= |lines| && i < |lines| && |lines[i]| > MAX_LINE
    requires forall l | l in lines[..m] :: |l| <= MAX_LINE
    ensures i >= m
  {
    forall j | 0 <= j < m
      ensures |lines[j]| <= MAX_LINE
    {
      assert lines[..m][j] in lines[..m];
    }
  }

  /** The key of an overlong line is lost. */
  lemma OverlongIsLost(env: Env, order: seq<string>, p: Printable, m: nat, i: nat)
    requires IsOrder(order, env) && AllKeysOk(env) && m <= |order| && i < |order|
    requires forall l | l in Entries(env, order, p)[..m] :: |l| <= MAX_LINE
    requires |Entry(order[i], env[order[i]], p)| > MAX_LINE
    ensures order[i] !in ParseLines(Entries(env, order, p)[..m])
  {
    ShortOnesRead(Entries(env, order, p), m, i);
    assert Entries(env, order, p)[..m] == Entries(env, order[..m], p);
    EntriesRead(env, order[..m], p);
    RestrictAt(env, order[..m], order[i]);
  }

  lemma OkReadsBack(env: Env, order: seq<string>, p: Printable)
    requires IsOrder(order, env) && forall k | k in env :: KeyOk(k)
    ensures ParseLines(Lines(Print(env, order, p))) == env
  {
    PrintedLines(env, order, p);
    EntriesRead(env, order, p);
    forall k
      ensures k in Restrict(env, order) <==> k in env
      ensures k in env ==> Restrict(env, order)[k] == env[k]
    {
      RestrictAt(env, order, k);
    }
  }

  lemma {:induction false} ScannedStep(lines: seq<string>, i: nat)
    requires i < |lines| && Scanned(lines) == lines[..i] + Scanned(lines[i..])
    ensures |lines[i]| <= MAX_LINE ==> Scanned(lines) == lines[..i + 1] + Scanned(lines[i + 1..])
    ensures |lines[i]| > MAX_LINE ==> Scanned(lines) == lines[..i]
  {
    assert lines[i..][1..] == lines[i + 1..];
  }

  lemma {:induction false} ParsedStep(lines: seq<string>, i: nat)
    requires i < |lines|
    ensures ParseLines(lines[..i + 1])
         == match ParseLine(lines[i])
            case None => ParseLines(lines[..i])
            case Some((key, value)) => ParseLines(lines[..i])[key := value]
  {
    assert lines[..i + 1][..i] == lines[..i];
  }

  // ---------------------------------------------------------------- what a file says

  /** Lines that the scanner can read. */
  predicate Readable(lines: seq<string>) {
    forall i | 0 <= i < |lines| :: '\n' !in lines[i] && |lines[i]| <= MAX_LINE
  }

  lemma {:induction false} FileOfLines(lines: seq<string>)
    requires Readable(lines)
    ensures Parse(JoinLines(lines)) == ParseLines(lines)
  {
    JoinedLines(lines);
    ShortLinesScanned(lines);
  }

  /** A file says what its lines but the last say, overridden by its last line. */
  lemma {:induction false} LastLineWins(lines: seq<string>, raw: string)
    requires Readable(lines + [raw])
    ensures Parse(JoinLines(lines + [raw]))
         == match ParseLine(raw)
            case None => Parse(JoinLines(lines))
            case Some((key, value)) => Parse(JoinLines(lines))[key := value]
  {
    var all := lines + [raw];
    assert forall i | 0 <= i < |lines| :: lines[i] == all[i];
    FileOfLines(all);
    FileOfLines(lines);
    assert all[..|all| - 1] == lines;
  }

  /** The newline of the last line may be missing. */
  lemma {:induction false} LastNewline(lines: seq<string>, raw: string)
    requires Readable(lines + [raw]) && raw != ""
    ensures Parse(JoinLines(lines) + raw) == Parse(JoinLines(lines + [raw]))
  {
    var all := lines + [raw];
    JoinedLines(all);
    assert forall i | 0 <= i < |lines| :: lines[i] == all[i];
    UnfinishedLine(lines, raw);
  }

  predicate OneLiners(lines: seq<string>) { forall l | l in lines :: '\n' !in l }

  lemma {:induction false} UnfinishedLine(lines: seq<string>, raw: string)
    requires OneLiners(lines) && '\n' !in raw && raw != ""
    ensures Lines(JoinLines(lines) + raw) == lines + [raw]
  {
    if lines == [] {
      assert JoinLines(lines) + raw == raw && raw[..|raw|] == raw;
      assert lines + [raw] == [raw];
    } else {
      var first, rest := lines[0], lines[1..];
      assert first in lines;
      UnfinishedLine(rest, raw);
      FirstLine(first, JoinLines(rest) + raw);
      JoinedFirst(first, rest, raw);
      assert lines == [first] + rest;
      assert [first] + (rest + [raw]) == lines + [raw];
    }
  }

  lemma {:induction false} JoinedFirst(first: string, rest: seq<string>, raw: string)
    ensures JoinLines([first] + rest) + raw == first + "\n" + (JoinLines(rest) + raw)
  {
    assert ([first] + rest)[1..] == rest;
  }

  /** A text that does not end with a quote it begins with. */
  predicate Bare(text: string) { |text| < 2 || text[0] != text[|text| - 1] || text[0] !in {'"', '\'', '`'} }

  /** An entry as people write it: a proper key, an equals sign, and a bare text. */
  predicate PlainEntry(key: string, text: string) {
    KeyOk(key) && '\n' !in text && Bare(text) && BlankBehind(text) == 0 && key + text != ""
  }

  lemma EntryIsTrimmed(key: string, text: string)
    requires PlainEntry(key, text)
    ensures Trimmed(Line(key, text))
  {
    var rest := "=" + text;
    assert Line(key, text) == key + rest == key + "=" + text;
    if text == "" {
      PlainEnd(Line(key, text));
    } else {
      EndStays(key + "=", text);
    }
    if key != "" {
      DecodeBefore(key, rest);
    }
  }

  lemma EntrySplits(key: string, text: string)
    requires PlainEntry(key, text)
    ensures SplitEntry(Line(key, text)) == Some((key, Some(text))) && Value(Some(text)) == text
  {
    SplitAtEquals(key, text);
    NotQuoted(text);
  }

  lemma TrimmedTwice(s: string)
    requires Trimmed(s)
    ensures TrimSpace(s) == s
  {
    NothingInFront(s);
    NothingAtTheEnd(s);
  }

  /** A line `key=text`, blanks around it, gives the key that text. */
  lemma {:induction false} PlainLine(lines: seq<string>, a: string, key: string, text: string, b: string)
    requires Blanks(a) && PlainEntry(key, text) && Blanks(b)
    requires Readable(lines + [a + (key + "=" + text) + b])
    ensures Parse(JoinLines(lines + [a + (key + "=" + text) + b])) == Parse(JoinLines(lines))[key := text]
  {
    var entry := Line(key, text);
    EntryIsTrimmed(key, text);
    TrimSpaceMeans(a, entry, b);
    TrimmedTwice(entry);
    NoExport(key, text);
    EntrySplits(key, text);
    LastLineWins(lines, a + entry + b);
  }

  /** The same behind `export`. */
  lemma {:induction false} ExportLine(lines: seq<string>, a: string, c: string, key: string, text: string, b: string)
    requires Blanks(a) && Blanks(c) && PlainEntry(key, text) && Blanks(b)
    requires Readable(lines + [a + ("export" + c + (key + "=" + text)) + b])
    ensures Parse(JoinLines(lines + [a + ("export" + c + (key + "=" + text)) + b])) == Parse(JoinLines(lines))[key := text]
  {
    var raw := a + ("export" + c + Line(key, text)) + b;
    EntryIsTrimmed(key, text);
    ExportIsTrimmed(c, Line(key, text));
    TrimSpaceMeans(a, "export" + c + Line(key, text), b);
    ExportTakenOff(raw, c, Line(key, text));
    EntrySplits(key, text);
    LastLineWins(lines, raw);
  }

  lemma ExportTakenOff(raw: string, c: string, entry: string)
    requires TrimSpace(raw) == "export" + c + entry && Blanks(c) && Trimmed(entry) && entry != ""
    ensures Uncommented(raw) == Some(entry)
  {
    var line := "export" + c + entry;
    assert line[0] == 'e' && "export" <= line && line[6..] == c + entry + "";
    TrimSpaceMeans(c, entry, "");
  }

  lemma ExportIsTrimmed(c: string, entry: string)
    requires Trimmed(entry) && entry != "" && Blanks(c)
    ensures Trimmed("export" + c + entry)
    ensures "export" <= "export" + c + entry && !("#" <= "export" + c + entry)
  {
    var line := "export" + c + entry;
    assert line[0] == 'e';
    EndStays("export" + c, entry);
  }

  /** A word without an equals sign is a key with an empty value. */
  lemma {:induction false} WordLine(lines: seq<string>, a: string, word: string, b: string)
    requires Blanks(a) && KeyOk(word) && |word| > 1 && BlankBehind(word) == 0 && Blanks(b)
    requires Readable(lines + [a + word + b])
    ensures Parse(JoinLines(lines + [a + word + b])) == Parse(JoinLines(lines))[word := ""]
  {
    TrimSpaceMeans(a, word, b);
    TrimmedTwice(word);
    LastLineWins(lines, a + word + b);
  }

  /** A single character says nothing. */
  lemma {:induction false} ShortLine(lines: seq<string>, a: string, c: char, b: string)
    requires Blanks(a) && Blanks(b) && ' ' < c <= '~' && c != '#'
    requires Readable(lines + [a + [c] + b])
    ensures Parse(JoinLines(lines + [a + [c] + b])) == Parse(JoinLines(lines))
  {
    assert Trimmed([c]);
    TrimSpaceMeans(a, [c], b);
    TrimmedTwice([c]);
    LastLineWins(lines, a + [c] + b);
  }

  /** A comment says nothing. */
  lemma {:induction false} CommentLine(lines: seq<string>, a: string, text: string)
    requires Blanks(a) && Readable(lines + [a + ("#" + text)])
    ensures Parse(JoinLines(lines + [a + ("#" + text)])) == Parse(JoinLines(lines))
  {
    var line := "#" + text;
    BlanksInFront(a, line);
    NothingInFront(line);
    TrimRightKeepsFirst(line);
    LastLineWins(lines, a + line);
  }

  lemma {:induction false} TrimRightKeepsFirst(s: string)
    requires s != "" && ' ' < s[0] <= '~'
    ensures TrimRight(s) != "" && TrimRight(s)[0] == s[0]
    decreases |s|
  {
    var w := BlankBehind(s);
    if w == 0 {
    } else {
      assert |s| - w > 0 by {
        assert Decode(s, 0) == Some(Rune(s[0] as nat, 1));
        assert EndsBlank(s, w);
      }
      TrimRightKeepsFirst(s[..|s| - w]);
    }
  }

  /** Nor does a blank line. */
  lemma {:induction false} BlankLine(lines: seq<string>, a: string)
    requires Blanks(a) && Readable(lines + [a])
    ensures Parse(JoinLines(lines + [a])) == Parse(JoinLines(lines))
  {
    assert a + "" == a;
    BlanksInFront(a, "");
    LastLineWins(lines, a);
  }

  /** A value that is quoted as `strconv.Quote` does it is read as what was quoted. */
  lemma {:induction false} QuotedLine(lines: seq<string>, key: string, value: string, p: Printable)
    requires KeyOk(key) && Readable(lines + [key + "=" + Quote(value, p)])
    ensures Parse(JoinLines(lines + [key + "=" + Quote(value, p)])) == Parse(JoinLines(lines))[key := value]
  {
    EntryReads(key, value, p);
    LastLineWins(lines, Entry(key, value, p));
  }

  /** An old entry that is not configured keeps its value through an application: it is in the merged map,
      and in the file written. */
  lemma {:induction false} OldEntryKept(lines: seq<string>, key: string, text: string, cfg: Env, order: seq<string>, p: Printable)
    requires PlainEntry(key, text) && Readable(lines + [key + "=" + text]) && key !in cfg
    requires var env := Parse(JoinLines(lines + [key + "=" + text])) + cfg; IsOrder(order, env) && AllOk(env, p)
    ensures var env := Parse(JoinLines(lines + [key + "=" + text])) + cfg;
      var again := Parse(Print(env, order, p));
      key in again && again[key] == text && forall k | k in cfg :: k in again && again[k] == cfg[k]
  {
    assert "" + (key + "=" + text) + "" == key + "=" + text;
    PlainLine(lines, "", key, text, "");
    ReadBack(Parse(JoinLines(lines + [key + "=" + text])) + cfg, order, p);
  }

  // ---------------------------------------------------------------- the command

  /** A failed write leaves the file as it was, or with the beginning of the text. */
  predicate Torn(before: Option<string>, after: Option<string>, text: string) {
    after == before || (after.Some? && after.value <= text)
  }

  class EnvironmentFile {
    /** The file, if there is one that can be read. */
    var content: Option<string>

    constructor (initial: Option<string>)
      ensures content == initial
    {
      content := initial;
    }

    /** The scanning loop. */
    method Read() returns (env: Env)
      ensures env == if content.Some? then Parse(content.value) else map[]
    {
      env := map[];
      if content.Some? {
        var lines := Lines(content.value);
        var i := 0;
        assert Scanned(lines) == lines[..0] + Scanned(lines[0..]);
        while i < |lines| && |lines[i]| <= MAX_LINE
          invariant 0 <= i <= |lines|
          invariant Scanned(lines) == lines[..i] + Scanned(lines[i..])
          invariant env == ParseLines(lines[..i])
        {
          ScannedStep(lines, i);
          ParsedStep(lines, i);
          var entry := ParseLine(lines[i]);
          if entry.Some? {
            env := env[entry.value.0 := entry.value.1];
          }
          i := i + 1;
        }
        if i < |lines| {
          ScannedStep(lines, i);
        } else {
          assert lines[..i] == lines && lines[i..] == [];
        }
        assert Scanned(lines) == lines[..i];
      }
    }

    /** `ioutil.WriteFile`: it does nothing, stops somewhere, or writes all of the text. */
    method Write(text: string, mayFail: bool) returns (ok: bool)
      modifies this
      ensures ok ==> content == Some(text)
      ensures !ok ==> mayFail && Torn(old(content), content, text)
    {
      var fails, truncated := *, *;
      if mayFail && fails {
        if truncated {
          var n: nat :| n <= |text|;
          content := Some(text[..n]);
        }
        return false;
      }
      content := Some(text);
      ok := true;
    }

    /** `ApplyEnvironment`. `order` is the order in which Go happened to range over the merged map. */
    method Apply(cfg: Env, p: Printable, mayFail: bool) returns (ok: bool, ghost order: seq<string>)
      modifies this
      ensures cfg == map[] ==> ok && content == old(content)
      ensures cfg != map[] ==>
        var env := (if old(content).Some? then Parse(old(content).value) else map[]) + cfg;
        && IsOrder(order, env)
        && (ok ==> content == Some(Print(env, order, p)))
        && (!ok ==> mayFail && Torn(old(content), content, Print(env, order, p)))
    {
      order := [];
      if cfg == map[] {
        return true, order;
      }
      var env := Read();
      env := env + cfg;
      var buf := "";
      var todo := env.Keys;
      while todo != {}
        invariant todo <= env.Keys
        invariant forall i, j | 0 <= i < j < |order| :: order[i] != order[j]
        invariant forall k :: k in order <==> k in env.Keys - todo
        invariant buf == Print(env, order, p) && content == old(content)
        decreases todo
      {
        var key :| key in todo;
        todo := todo - {key};
        JoinAppend(Entries(env, order, p), Entry(key, env[key], p));
        assert Entries(env, order + [key], p) == Entries(env, order, p) + [Entry(key, env[key], p)];
        assert key !in order;
        buf := buf + Entry(key, env[key], p) + "\n";
        order := order + [key];
      }
      ok := Write(buf, mayFail);
    }
  }

  lemma {:induction false} JoinAppend(lines: seq<string>, line: string)
    ensures JoinLines(lines + [line]) == JoinLines(lines) + line + "\n"
  {
    if lines == [] {
      assert lines + [line] == [line] && JoinLines([line][1..]) == "";
    } else {
      assert (lines + [line])[1..] == lines[1..] + [line];
      JoinAppend(lines[1..], line);
    }
  }

  /** Applying the same settings once more, to the file just written, changes no entry: the merged map
      is the same, and so is what the second file holds, in whatever order either is written. */
  lemma SecondApplication(before: Env, cfg: Env, env: Env, first: seq<string>, second: seq<string>, p: Printable)
    requires env == before + cfg && AllOk(env, p)
    requires IsOrder(first, env) && IsOrder(second, env)
    ensures Parse(Print(env, first, p)) + cfg == env
    ensures Parse(Print(env, second, p)) == env
  {
    ReadBack(env, first, p);
    ReadBack(env, second, p);
    MergedOnce(before, cfg);
  }

  lemma MergedOnce(before: Env, cfg: Env)
    ensures (before + cfg) + cfg == before + cfg
  {
  }
}
