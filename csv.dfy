/** The CSV reader of the feed utilities: delimiter detection on the header line, the
    quote-aware field splitter, and the conversion of a whole text into header-keyed records.
    Quoting follows section 2 of RFC 4180 leniently: a double quote toggles the quoted state,
    two double quotes inside a quoted region stand for one, and the delimiter separates fields
    only outside quotes. Lines are split before fields, so a quoted field cannot span lines. */
module Csv {
  import opened Text

  /** A parsed row: column header to trimmed cell value. */
  type Record = map<string, string>

  // ---------------------------------------------------------------------------------------
  // Field splitting

  /** Appends c to the first of the fields fs (the field being read). */
  function Extend(c: char, fs: seq<string>): (r: seq<string>)
    requires |fs| >= 1
  {
    [[c] + fs[0]] + fs[1..]
  }

  /** The fields the splitter produces from s, starting inside quotes when inQuotes holds; the
      first field continues whatever field was being read when s began. */
  function Fields(s: string, delim: char, inQuotes: bool): (fs: seq<string>)
    ensures |fs| >= 1
    decreases |s|
  {
    if s == [] then [[]]
    else if s[0] == '"' then
      if inQuotes && |s| > 1 && s[1] == '"' then Extend('"', Fields(s[2..], delim, inQuotes))
      else Fields(s[1..], delim, !inQuotes)
    else if s[0] == delim && !inQuotes then [[]] + Fields(s[1..], delim, inQuotes)
    else Extend(s[0], Fields(s[1..], delim, inQuotes))
  }

  /** The splitter's output when it has emitted done, holds cur and has fs still to produce. */
  function Resume(done: seq<string>, cur: string, fs: seq<string>): (r: seq<string>)
    requires |fs| >= 1
  {
    done + [cur + fs[0]] + fs[1..]
  }

  lemma ResumeExtend(done: seq<string>, cur: string, c: char, fs: seq<string>)
    requires |fs| >= 1
    ensures Resume(done, cur, Extend(c, fs)) == Resume(done, cur + [c], fs)
  {
    assert cur + ([c] + fs[0]) == (cur + [c]) + fs[0];
    assert Extend(c, fs)[1..] == fs[1..];
  }

  lemma ResumeEmit(done: seq<string>, cur: string, fs: seq<string>)
    requires |fs| >= 1
    ensures Resume(done, cur, [[]] + fs) == Resume(done + [cur], [], fs)
  {
    var g: seq<string> := [[]] + fs;
    assert g[0] == [] && g[1..] == fs;
    assert cur + g[0] == cur;
    assert [] + fs[0] == fs[0];
    calc {
      Resume(done + [cur], [], fs);
      (done + [cur]) + [fs[0]] + fs[1..];
      done + [cur] + ([fs[0]] + fs[1..]);
      { assert [fs[0]] + fs[1..] == fs; }
      done + [cur] + fs;
      done + [cur + g[0]] + g[1..];
    }
  }

  /** `splitCsvLine`: scans the line once, collecting the current field in cur, and emits it
      at each delimiter outside quotes and at the end. */
  method SplitCsvLine(line: string, delim: char) returns (result: seq<string>)
    ensures result == Fields(line, delim, false)
  {
    result := [];
    var cur := "";
    var inQuotes := false;
    var i := 0;
    ghost var all := Fields(line, delim, false);
    assert line[0..] == line && [] + all[0] == all[0] && [all[0]] + all[1..] == all;
    while i < |line|
      invariant 0 <= i <= |line|
      invariant Resume(result, cur, Fields(line[i..], delim, inQuotes)) == Fields(line, delim, false)
      decreases |line| - i
    {
      var ch := line[i];
      ghost var rest := line[i..];
      assert rest[1..] == line[i + 1..];
      if ch == '"' {
        if inQuotes && i + 1 < |line| && line[i + 1] == '"' {
          assert rest[2..] == line[i + 2..];
          ghost var fs := Fields(line[i + 2..], delim, inQuotes);
          ResumeExtend(result, cur, '"', fs);
          cur := cur + ['"'];
          i := i + 1;
        } else {
          inQuotes := !inQuotes;
        }
      } else if ch == delim && !inQuotes {
        ghost var fs := Fields(line[i + 1..], delim, inQuotes);
        ResumeEmit(result, cur, fs);
        result := result + [cur];
        cur := "";
      } else {
        ghost var fs := Fields(line[i + 1..], delim, inQuotes);
        ResumeExtend(result, cur, ch, fs);
        cur := cur + [ch];
      }
      i := i + 1;
    }
    assert line[i..] == [];
    assert cur + [] == cur;
    assert Resume(result, cur, [[]]) == result + [cur];
    result := result + [cur];
  }

  /** The number of delimiter characters the splitter meets outside quotes. */
  function SeparatorCount(s: string, delim: char, inQuotes: bool): (r: nat)
    decreases |s|
  {
    if s == [] then 0
    else if s[0] == '"' then
      if inQuotes && |s| > 1 && s[1] == '"' then SeparatorCount(s[2..], delim, inQuotes)
      else SeparatorCount(s[1..], delim, !inQuotes)
    else (if s[0] == delim && !inQuotes then 1 else 0) + SeparatorCount(s[1..], delim, inQuotes)
  }

  /** There is one field more than there are delimiters outside quotes. */
  lemma {:induction false} FieldCount(s: string, delim: char, inQuotes: bool)
    ensures |Fields(s, delim, inQuotes)| == SeparatorCount(s, delim, inQuotes) + 1
    decreases |s|
  {
    if s == [] {
    } else if s[0] == '"' {
      if inQuotes && |s| > 1 && s[1] == '"' {
        FieldCount(s[2..], delim, inQuotes);
      } else {
        FieldCount(s[1..], delim, !inQuotes);
      }
    } else {
      FieldCount(s[1..], delim, inQuotes);
    }
  }

  /** On a line without double quotes the splitter is the plain split on the delimiter. */
  lemma {:induction false} UnquotedFieldsAreSplit(s: string, delim: char)
    requires '"' !in s
    ensures Fields(s, delim, false) == Split(s, delim)
  {
    if s != [] {
      assert s[0] in s;
      assert forall c :: c in s[1..] ==> c in s;
      UnquotedFieldsAreSplit(s[1..], delim);
    }
  }

  /** The field f as written in a quoted region: every double quote doubled. */
  function EscapeQuotes(f: string): (r: string) {
    if f == [] then [] else EscapedChar(f[0]) + EscapeQuotes(f[1..])
  }

  /** f enclosed in double quotes, its own double quotes doubled (section 2, rule 7 of RFC 4180). */
  function QuoteField(f: string): (r: string) {
    "\"" + EscapeQuotes(f) + "\""
  }

  /** A row written with every field quoted and the fields separated by delim. */
  function EncodeRow(fs: seq<string>, delim: char): (r: string)
    requires |fs| >= 1
  {
    if |fs| == 1 then QuoteField(fs[0]) else QuoteField(fs[0]) + [delim] + EncodeRow(fs[1..], delim)
  }

  function Prefix(f: string, fs: seq<string>): (r: seq<string>)
    requires |fs| >= 1
  {
    [f + fs[0]] + fs[1..]
  }

  lemma FieldsQuotedPair(t: string, delim: char)
    ensures Fields("\"\"" + t, delim, true) == Extend('"', Fields(t, delim, true))
  {
    var s := "\"\"" + t;
    assert s[2..] == t;
  }

  lemma FieldsQuotedChar(c: char, t: string, delim: char)
    requires c != '"'
    ensures Fields([c] + t, delim, true) == Extend(c, Fields(t, delim, true))
  {
    var s := [c] + t;
    assert s[1..] == t;
  }

  lemma FieldsClosingQuote(rest: string, delim: char)
    requires rest == [] || rest[0] != '"'
    ensures Fields("\"" + rest, delim, true) == Fields(rest, delim, false)
  {
    var s := "\"" + rest;
    assert s[1..] == rest;
  }

  /** Inside quotes, an escaped field followed by its closing quote is read back as the field
      itself, and the splitter goes on outside quotes; the delimiter inside never splits. */
  lemma {:induction false} QuotedRegion(f: string, rest: string, delim: char)
    requires rest == [] || rest[0] != '"'
    ensures Fields(EscapeQuotes(f) + ("\"" + rest), delim, true) == Prefix(f, Fields(rest, delim, false))
    decreases |f|
  {
    if f == [] {
      var tail := Fields(rest, delim, false);
      FieldsClosingQuote(rest, delim);
      assert EscapeQuotes(f) + ("\"" + rest) == "\"" + rest;
      assert [] + tail[0] == tail[0];
      assert [tail[0]] + tail[1..] == tail;
    } else {
      QuotedRegion(f[1..], rest, delim);
      QuotedStep(f, rest, delim);
    }
  }

  /** One more character of the field in front: the escaped character is read back into it. */
  lemma QuotedStep(f: string, rest: string, delim: char)
    requires f != []
    requires Fields(EscapeQuotes(f[1..]) + ("\"" + rest), delim, true) == Prefix(f[1..], Fields(rest, delim, false))
    ensures Fields(EscapeQuotes(f) + ("\"" + rest), delim, true) == Prefix(f, Fields(rest, delim, false))
  {
    var t := EscapeQuotes(f[1..]) + ("\"" + rest);
    var tail := Fields(rest, delim, false);
    EscapeQuotesCons(f, "\"" + rest);
    FieldsQuotedHead(f[0], t, delim);
    ExtendPrefix(f[0], f[1..], tail);
    calc {
      Fields(EscapeQuotes(f) + ("\"" + rest), delim, true);
      Fields(EscapedChar(f[0]) + t, delim, true);
      Extend(f[0], Fields(t, delim, true));
      Extend(f[0], Prefix(f[1..], tail));
      Prefix([f[0]] + f[1..], tail);
      { assert [f[0]] + f[1..] == f; }
      Prefix(f, tail);
    }
  }

  lemma EscapeQuotesCons(f: string, close: string)
    requires f != []
    ensures EscapeQuotes(f) + close == EscapedChar(f[0]) + (EscapeQuotes(f[1..]) + close)
  {
  }

  /** One character as written inside quotes. */
  function EscapedChar(c: char): (r: string) {
    if c == '"' then "\"\"" else [c]
  }

  lemma FieldsQuotedHead(c: char, t: string, delim: char)
    ensures Fields(EscapedChar(c) + t, delim, true) == Extend(c, Fields(t, delim, true))
  {
    if c == '"' {
      FieldsQuotedPair(t, delim);
    } else {
      FieldsQuotedChar(c, t, delim);
    }
  }

  lemma ExtendPrefix(c: char, g: string, fs: seq<string>)
    requires |fs| >= 1
    ensures Extend(c, Prefix(g, fs)) == Prefix([c] + g, fs)
  {
    assert [c] + (g + fs[0]) == [c] + g + fs[0];
  }

  /** Reading a row written with every field quoted gives back exactly its fields, whatever
      delimiters and double quotes they contain. */
  lemma {:induction false} EncodeRowRoundTrip(fs: seq<string>, delim: char)
    requires |fs| >= 1 && delim != '"'
    ensures Fields(EncodeRow(fs, delim), delim, false) == fs
    decreases |fs|
  {
    var e := EncodeRow(fs, delim);
    var rest := if |fs| == 1 then "" else [delim] + EncodeRow(fs[1..], delim);
    var inner := EscapeQuotes(fs[0]) + ("\"" + rest);
    assert e == "\"" + inner;
    assert e[1..] == inner;
    QuotedRegion(fs[0], rest, delim);
    var tail := Fields(rest, delim, false);
    assert Fields(e, delim, false) == Prefix(fs[0], tail);
    if |fs| > 1 {
      EncodeRowRoundTrip(fs[1..], delim);
      assert rest[1..] == EncodeRow(fs[1..], delim);
      assert tail == [[]] + fs[1..];
      assert tail[0] == [] && tail[1..] == fs[1..];
      assert fs[0] + tail[0] == fs[0];
      assert [fs[0]] + fs[1..] == fs;
    } else {
      assert tail == [[]];
      assert fs[0] + tail[0] == fs[0];
    }
  }

  /** A quoted field holding the delimiter stays one field: `"Smith, Jr."` is `Smith, Jr.`. */
  lemma QuotedDelimiterDoesNotSplit()
    ensures Fields("\"Smith, Jr.\"", ',', false) == ["Smith, Jr."]
  {
    var f := "Smith, Jr.";
    assert "\"" + f + "\"" == "\"Smith, Jr.\"";
    PlainQuotedField(f, ',');
  }

  /** A quoted field without double quotes is read as its content. */
  lemma PlainQuotedField(f: string, delim: char)
    requires delim != '"' && forall i :: 0 <= i < |f| ==> f[i] != '"'
    ensures Fields("\"" + f + "\"", delim, false) == [f]
  {
    EscapeQuotesPlain(f);
    assert EncodeRow([f], delim) == "\"" + f + "\"";
    EncodeRowRoundTrip([f], delim);
  }

  /** A field without double quotes is written as it is. */
  lemma {:induction false} EscapeQuotesPlain(f: string)
    requires forall i :: 0 <= i < |f| ==> f[i] != '"'
    ensures EscapeQuotes(f) == f
  {
    if f != [] {
      EscapeQuotesPlain(f[1..]);
      assert [f[0]] + f[1..] == f;
    }
  }

  /** Two double quotes inside quotes are one literal double quote: `"a""b"` is `a"b`. */
  lemma DoubledQuoteIsLiteral()
    ensures Fields("\"a\"\"b\"", ',', false) == ["a\"b"]
  {
    var f := "a\"b";
    assert f[1..] == "\"b" && f[1..][1..] == "b" && "b"[1..] == [];
    assert EscapeQuotes("b") == "b";
    assert EscapeQuotes("\"b") == "\"\"b";
    assert EscapeQuotes(f) == "a\"\"b";
    assert EncodeRow([f], ',') == "\"a\"\"b\"";
    EncodeRowRoundTrip(["a\"b"], ',');
  }

  // ---------------------------------------------------------------------------------------
  // Delimiter detection

  /** The candidate delimiters, in the order they are tried: comma, semicolon, tab, pipe. */
  const DelimiterCandidates: seq<char> := [',', ';', '\t', '|']

  /** `headerLine.split(d).length - 1`: the naive number of occurrences of d, quotes ignored. */
  function NaiveCount(headerLine: string, d: char): (n: int)
    ensures n == multiset(headerLine)[d]
  {
    SplitCount(headerLine, d);
    |Split(headerLine, d)| - 1
  }

  /** Candidate k wins: its count is strictly greater than that of every earlier candidate and
      at least that of every later one. */
  predicate Wins(headerLine: string, k: nat)
    requires k < |DelimiterCandidates|
  {
    && (forall j :: 0 <= j < k ==> NaiveCount(headerLine, DelimiterCandidates[j]) < NaiveCount(headerLine, DelimiterCandidates[k]))
    && (forall j :: k < j < |DelimiterCandidates| ==> NaiveCount(headerLine, DelimiterCandidates[j]) <= NaiveCount(headerLine, DelimiterCandidates[k]))
  }

  /** The index of the candidate the comparisons settle on. */
  function WinnerIndex(headerLine: string): (k: nat)
    ensures k < |DelimiterCandidates|
  {
    var c0, c1 := NaiveCount(headerLine, DelimiterCandidates[0]), NaiveCount(headerLine, DelimiterCandidates[1]);
    var c2, c3 := NaiveCount(headerLine, DelimiterCandidates[2]), NaiveCount(headerLine, DelimiterCandidates[3]);
    if c0 >= c1 && c0 >= c2 && c0 >= c3 then 0
    else if c1 > c0 && c1 >= c2 && c1 >= c3 then 1
    else if c2 > c0 && c2 > c1 && c2 >= c3 then 2
    else 3
  }

  /** The delimiter chosen for a header line. */
  function Delimiter(headerLine: string): (r: char) {
    DelimiterCandidates[WinnerIndex(headerLine)]
  }

  /** There is always a winning candidate, and WinnerIndex finds it. */
  lemma WinnerIndexWins(headerLine: string)
    ensures Wins(headerLine, WinnerIndex(headerLine))
  {
    var k := WinnerIndex(headerLine);
    var c := NaiveCount(headerLine, DelimiterCandidates[k]);
    forall j | 0 <= j < k ensures NaiveCount(headerLine, DelimiterCandidates[j]) < c {
      assert j == 0 || j == 1 || j == 2;
    }
    forall j | k < j < |DelimiterCandidates| ensures NaiveCount(headerLine, DelimiterCandidates[j]) <= c {
      assert j == 1 || j == 2 || j == 3;
    }
  }

  /** At most one candidate wins. */
  lemma WinnerIsUnique(headerLine: string, k: nat)
    requires k < |DelimiterCandidates| && Wins(headerLine, k)
    ensures k == WinnerIndex(headerLine)
  {
  }

  /** No candidate occurs more often in the header line than the chosen delimiter. */
  lemma DelimiterIsMostFrequent(headerLine: string)
    ensures forall d :: d in DelimiterCandidates ==> multiset(headerLine)[d] <= multiset(headerLine)[Delimiter(headerLine)]
  {
    var k := WinnerIndex(headerLine);
    WinnerIndexWins(headerLine);
    forall d | d in DelimiterCandidates
      ensures multiset(headerLine)[d] <= multiset(headerLine)[Delimiter(headerLine)]
    {
      var j :| 0 <= j < |DelimiterCandidates| && DelimiterCandidates[j] == d;
      assert NaiveCount(headerLine, DelimiterCandidates[j]) <= NaiveCount(headerLine, DelimiterCandidates[k]);
    }
  }

  /** A header line with none of the candidates gets the comma. */
  lemma DelimiterDefault(headerLine: string)
    requires forall d :: d in DelimiterCandidates ==> d !in headerLine
    ensures Delimiter(headerLine) == ','
  {
    var k := WinnerIndex(headerLine);
    WinnerIndexWins(headerLine);
    assert DelimiterCandidates[0] in DelimiterCandidates && DelimiterCandidates[k] in DelimiterCandidates;
    assert NaiveCount(headerLine, DelimiterCandidates[0]) == 0 == NaiveCount(headerLine, DelimiterCandidates[k]);
  }

  /** `detectDelimiter`: keeps the candidate with the greatest count so far, replacing it only
      on a strictly greater count, so ties go to the earlier candidate; with none of the
      candidates in the header the comma wins. */
  method DetectDelimiter(headerLine: string) returns (best: char)
    ensures best in DelimiterCandidates && best == Delimiter(headerLine)
    ensures forall d :: d in DelimiterCandidates ==> multiset(headerLine)[d] <= multiset(headerLine)[best]
    ensures (forall d :: d in DelimiterCandidates ==> d !in headerLine) ==> best == ','
  {
    best := ',';
    var bestCount := -1;
    ghost var bestIndex := 0;
    var k := 0;
    while k < |DelimiterCandidates|
      invariant 0 <= k <= |DelimiterCandidates| && bestIndex < |DelimiterCandidates|
      invariant k == 0 ==> best == ',' && bestCount == -1 && bestIndex == 0
      invariant k > 0 ==> bestIndex < k && best == DelimiterCandidates[bestIndex]
      invariant k > 0 ==> bestCount == NaiveCount(headerLine, best)
      invariant forall j :: 0 <= j < bestIndex ==> NaiveCount(headerLine, DelimiterCandidates[j]) < bestCount
      invariant forall j :: bestIndex < j < k ==> NaiveCount(headerLine, DelimiterCandidates[j]) <= bestCount
    {
      var d := DelimiterCandidates[k];
      var c := NaiveCount(headerLine, d);
      if c > bestCount {
        bestCount := c;
        best := d;
        bestIndex := k;
      }
      k := k + 1;
    }
    assert Wins(headerLine, bestIndex);
    WinnerIsUnique(headerLine, bestIndex);
    DelimiterIsMostFrequent(headerLine);
    if forall d :: d in DelimiterCandidates ==> d !in headerLine {
      DelimiterDefault(headerLine);
    }
  }

  // ---------------------------------------------------------------------------------------
  // Whole texts

  /** A line without the carriage return of a CRLF terminator. */
  function DropCR(s: string): (r: string) {
    if s != [] && s[|s| - 1] == '\r' then s[..|s| - 1] else s
  }

  /** `text.trim().split(/\r?\n/)`: the lines of the trimmed text. */
  function Lines(text: string): (ls: seq<string>)
    ensures |ls| >= 1
  {
    var raw := Split(Trim(text), '\n');
    seq(|raw|, i requires 0 <= i < |raw| => if i < |raw| - 1 then DropCR(raw[i]) else raw[i])
  }

  /** There is one line per line feed of the trimmed text, plus one, and no line holds a line
      feed; a line ending in a carriage return lost it only if a line feed followed. */
  lemma LinesShape(text: string)
    ensures |Lines(text)| == multiset(Trim(text))['\n'] + 1
    ensures forall i :: 0 <= i < |Lines(text)| ==> '\n' !in Lines(text)[i]
    ensures Join(Split(Trim(text), '\n'), "\n") == Trim(text)
    ensures forall i :: 0 <= i < |Lines(text)| - 1 ==> Lines(text)[i] == DropCR(Split(Trim(text), '\n')[i])
    ensures Lines(text)[|Lines(text)| - 1] == Split(Trim(text), '\n')[|Lines(text)| - 1]
  {
    var raw := Split(Trim(text), '\n');
    JoinSplit(Trim(text), '\n');
    SplitCount(Trim(text), '\n');
    SplitPiecesHaveNoSeparator(Trim(text), '\n');
    forall i | 0 <= i < |raw|
      ensures '\n' !in Lines(text)[i]
    {
      assert '\n' !in raw[i];
      if i < |raw| - 1 && raw[i] != [] && raw[i][|raw[i]| - 1] == '\r' {
        assert forall c :: c in raw[i][..|raw[i]| - 1] ==> c in raw[i];
      }
    }
  }

  /** The lines that hold something besides white space, in order. */
  function NonBlank(ls: seq<string>): (r: seq<string>)
    ensures |r| <= |ls|
    ensures forall i :: 0 <= i < |r| ==> !AllSpace(r[i])
    ensures forall l :: l in r <==> l in ls && !AllSpace(l)
  {
    if ls == [] then []
    else
      TrimShape(ls[|ls| - 1]);
      NonBlank(ls[..|ls| - 1]) + (if Trim(ls[|ls| - 1]) == [] then [] else [ls[|ls| - 1]])
  }

  /** The data lines of a text: every non-blank line after the header line. */
  function DataLines(text: string): (r: seq<string>) {
    NonBlank(Lines(text)[1..])
  }

  /** The delimiter detected on the header line of a text. */
  function TextDelimiter(text: string): (r: char) {
    Delimiter(Lines(text)[0])
  }

  /** The trimmed cells of the header line: the record keys. */
  function Headers(text: string): (r: seq<string>) {
    var cells := Fields(Lines(text)[0], TextDelimiter(text), false);
    seq(|cells|, i requires 0 <= i < |cells| => Trim(cells[i]))
  }

  /** The cell of column i, or the empty string when the row is shorter. */
  function Cell(cols: seq<string>, i: nat): (r: string) {
    if i < |cols| then cols[i] else ""
  }

  /** Column i is the last column with its header among the first n. */
  predicate LastBefore(headers: seq<string>, i: nat, n: nat)
    requires i < n <= |headers|
  {
    forall j :: i < j < n ==> headers[j] != headers[i]
  }

  /** Column i is the last column with its header. */
  predicate LastWithHeader(headers: seq<string>, i: nat)
    requires i < |headers|
  {
    LastBefore(headers, i, |headers|)
  }

  /** obj has exactly the headers as keys, and each key holds the trimmed cell of the last
      column carrying it, or `''` when the row has no such column; surplus cells are ignored. */
  ghost predicate IsRecordOf(obj: Record, headers: seq<string>, cols: seq<string>) {
    && (forall h :: h in obj <==> h in headers)
    && forall i :: 0 <= i < |headers| && LastWithHeader(headers, i) ==>
         headers[i] in obj && obj[headers[i]] == Trim(Cell(cols, i))
  }

  /** records are the records of lines, one each, in order. */
  ghost predicate RecordsOf(records: seq<Record>, lines: seq<string>, headers: seq<string>, delim: char) {
    |records| == |lines| &&
    forall k :: 0 <= k < |records| ==> IsRecordOf(records[k], headers, Fields(lines[k], delim, false))
  }

  /** One more line of the prefix adds that line to the non-blank lines when it is not blank. */
  lemma NonBlankStep(ls: seq<string>, n: nat)
    requires n < |ls|
    ensures NonBlank(ls[..n + 1]) == NonBlank(ls[..n]) + (if Trim(ls[n]) == [] then [] else [ls[n]])
  {
    assert ls[..n + 1][..n] == ls[..n];
  }

  /** `parseCsv`: one record per non-blank line after the header line, in order, each keyed by
      the trimmed header cells; empty or blank text gives no records. */
  method ParseCsv(text: string) returns (records: seq<Record>)
    ensures |records| == |DataLines(text)|
    ensures RecordsOf(records, DataLines(text), Headers(text), TextDelimiter(text))
    ensures AllSpace(text) ==> records == []
  {
    var lines := Lines(text);
    var delim := DetectDelimiter(lines[0]);
    var cells := SplitCsvLine(lines[0], delim);
    var headers := seq(|cells|, i requires 0 <= i < |cells| => Trim(cells[i]));
    assert headers == Headers(text);
    records := RecordsOfLines(lines[1..], headers, delim);
    if AllSpace(text) {
      BlankTextHasNoData(text);
    }
  }

  /** `lines.filter(l => l.trim().length > 0).map(...)`: the record of every non-blank line, in
      order. */
  method RecordsOfLines(lines: seq<string>, headers: seq<string>, delim: char) returns (records: seq<Record>)
    ensures RecordsOf(records, NonBlank(lines), headers, delim)
  {
    records := [];
    var n := 0;
    while n < |lines|
      invariant 0 <= n <= |lines|
      invariant RecordsOf(records, NonBlank(lines[..n]), headers, delim)
    {
      var line := lines[n];
      NonBlankStep(lines, n);
      if Trim(line) != [] {
        var cols := SplitCsvLine(line, delim);
        var obj := BuildRecord(headers, cols);
        RecordsOfSnoc(records, NonBlank(lines[..n]), headers, delim, obj, line);
        records := records + [obj];
      }
      n := n + 1;
    }
    assert lines[..n] == lines;
  }

  lemma RecordsOfSnoc(records: seq<Record>, lines: seq<string>, headers: seq<string>, delim: char,
                      obj: Record, line: string)
    requires RecordsOf(records, lines, headers, delim)
    requires IsRecordOf(obj, headers, Fields(line, delim, false))
    ensures RecordsOf(records + [obj], lines + [line], headers, delim)
  {
    var r, l := records + [obj], lines + [line];
    forall k | 0 <= k < |r|
      ensures IsRecordOf(r[k], headers, Fields(l[k], delim, false))
    {
      if k < |records| {
        assert r[k] == records[k] && l[k] == lines[k];
      }
    }
  }

  /** Empty or all-blank text has no data lines, so it gives no records. */
  lemma BlankTextHasNoData(text: string)
    requires AllSpace(text)
    ensures DataLines(text) == []
  {
    TrimShape(text);
    assert Trim(text) == [];
    assert Lines(text) == [[]];
  }

  /** The `forEach` that fills a record: assigns each header its trimmed cell in column order,
      so a repeated header keeps the value of its last column. */
  method BuildRecord(headers: seq<string>, cols: seq<string>) returns (obj: Record)
    ensures IsRecordOf(obj, headers, cols)
  {
    obj := map[];
    var i := 0;
    while i < |headers|
      invariant 0 <= i <= |headers|
      invariant obj == Filled(headers, cols, i)
    {
      obj := obj[headers[i] := Trim(if i < |cols| then cols[i] else "")];
      i := i + 1;
    }
    FilledIsRecord(headers, cols);
  }

  /** The record after the first n assignments of the `forEach`. */
  function Filled(headers: seq<string>, cols: seq<string>, n: nat): (r: Record)
    requires n <= |headers|
  {
    if n == 0 then map[] else Filled(headers, cols, n - 1)[headers[n - 1] := Trim(Cell(cols, n - 1))]
  }

  /** Once every header is assigned, the object is the record of the row. */
  lemma FilledIsRecord(headers: seq<string>, cols: seq<string>)
    ensures IsRecordOf(Filled(headers, cols, |headers|), headers, cols)
  {
    FilledKeys(headers, cols, |headers|);
    FilledValues(headers, cols, |headers|);
    assert headers[..|headers|] == headers;
  }

  /** After n assignments the record holds exactly the first n headers as keys. */
  lemma {:induction false} FilledKeys(headers: seq<string>, cols: seq<string>, n: nat)
    requires n <= |headers|
    ensures forall h :: h in Filled(headers, cols, n) <==> h in headers[..n]
  {
    if n > 0 {
      FilledKeys(headers, cols, n - 1);
      assert headers[..n] == headers[..n - 1] + [headers[n - 1]];
    }
  }

  /** After n assignments each of the first n headers holds the value of its last column among
      them. */
  lemma {:induction false} FilledValues(headers: seq<string>, cols: seq<string>, n: nat)
    requires n <= |headers|
    ensures forall i :: 0 <= i < n && LastBefore(headers, i, n) ==>
      headers[i] in Filled(headers, cols, n) && Filled(headers, cols, n)[headers[i]] == Trim(Cell(cols, i))
  {
    if n > 0 {
      FilledValues(headers, cols, n - 1);
      forall i | 0 <= i < n && LastBefore(headers, i, n)
        ensures headers[i] in Filled(headers, cols, n) && Filled(headers, cols, n)[headers[i]] == Trim(Cell(cols, i))
      {
        if i < n - 1 {
          assert headers[n - 1] != headers[i];
          assert LastBefore(headers, i, n - 1);
        }
      }
    }
  }
}
