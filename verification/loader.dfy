/**
 * Per-chunk loading (`process`, `insert_rows`, `get_url`): each line of a chunk is parsed into a
 * row text, rows are gathered into batches (module `Batching`), and each batch becomes one
 * multi-row INSERT statement. The first line that cannot be parsed stops the chunk.
 */
module Loader {
  import opened Wrappers
  import opened Text
  import opened Blocks
  import Batching
  import opened Arith
  import opened LinePattern
  import opened Timestamps

  /**
   * Why a chunk stops: a line does not match the pattern, a line's time is rejected, or the
   * batch test divides by a zero `numrows`.
   */
  datatype ChunkError = NoMatch(message: string) | BadTime(text: string, reason: DateError) | ZeroDivision

  /** A parsed line: address, UTC time, escaped and truncated URL. */
  datatype Record = Record(ip: string, dt: DateTime, url: string)

  const UrlLimit: nat := 500

  /** `get_url`: the escaped URL cut to its first 500 characters. */
  function GetUrl(escape: string -> string, url: string): (r: string)
    ensures var e := escape(url);
      && |r| == (if |e| < UrlLimit then |e| else UrlLimit) && r == e[..|r|]
  {
    var e := escape(url);
    if |e| <= UrlLimit then e else e[..UrlLimit]
  }

  /**
   * One line as `process` turns it into a record, or the error it raises: the record holds the
   * line's address group, the UTC instant of its time group and the stored form of its URL
   * group. A time group always has the layout `get_datetime` expects, so a time is only ever
   * refused by the range checks.
   */
  function ParseRecord(line: string, escape: string -> string): (r: Result<Record, ChunkError>)
    ensures r.Success? <==> ParseLine(line).Success? && GetDatetime(ParseLine(line).value.dt).Success?
    ensures r.Success? ==>
      var g := ParseLine(line).value;
      && r.value.ip == g.ip && r.value.url == GetUrl(escape, g.url)
      && Valid(r.value.dt) && Seconds(r.value.dt) == Instant(ParseStamp(g.dt).value)
      && |r.value.url| <= UrlLimit
    ensures r.Failure? ==> (r.error.NoMatch? <==> ParseLine(line).Failure?)
    ensures r.Failure? && r.error.NoMatch? ==> r.error.message == ErrorPrefix + line
    ensures r.Failure? && r.error.BadTime? ==>
      ParseLine(line).Success? && r.error.text == ParseLine(line).value.dt && StampShape(r.error.text)
  {
    match ParseLine(line)
    case Failure(message) => Failure(NoMatch(message))
    case Success(g) =>
      DtHasShape(line);
      match GetDatetime(g.dt)
      case Failure(reason) => Failure(BadTime(g.dt, reason))
      case Success(t) => Success(Record(g.ip, t, GetUrl(escape, g.url)))
  }

  /** The time group of a parsed line has the layout `get_datetime`'s format describes. */
  lemma DtHasShape(line: string)
    requires ParseLine(line).Success?
    ensures StampShape(ParseLine(line).value.dt)
  {
    var l := ParsedLayout(line);
    DtGroupHasShape(line, l);
  }

  /** The bracket the pattern accepts is `dd/www/dddd:h+:dd:dd\s[+-]dddd`, which has the timestamp layout. */
  lemma DtGroupHasShape(line: string, l: Layout)
    requires Fits(line, l)
    ensures StampShape(GroupsOf(line, l).dt)
  {
    BracketHasShape(line, l.open, l.hourEnd, GroupsOf(line, l).dt);
  }

  lemma BracketHasShape(line: string, s: nat, h: nat, t: string)
    requires BracketFits(line, s, h) && t == line[s + 1..h + 12]
    ensures StampShape(t)
  {
    var o := s + 1;
    var hd := h - s - 13;
    assert |t| == hd + 24 && HourDigits(t) == hd;
    DigitsOfSlice(line, t, o, 0, 2);
    DigitsOfSlice(line, t, o, 7, 11);
    DigitsOfSlice(line, t, o, 12, 12 + hd);
    DigitsOfSlice(line, t, o, 13 + hd, 15 + hd);
    DigitsOfSlice(line, t, o, 16 + hd, 18 + hd);
    DigitsOfSlice(line, t, o, 20 + hd, 22 + hd);
    DigitsOfSlice(line, t, o, 22 + hd, 24 + hd);
  }

  /** Digits of the line inside a piece cut from it are digits of the piece. */
  lemma DigitsOfSlice(line: string, t: string, o: nat, a: nat, b: nat)
    requires o + |t| <= |line| && t == line[o..o + |t|] && a <= b <= |t|
    requires DigitsIn(line, o + a, o + b)
    ensures AllDigits(t[a..b])
  {
    assert forall k :: a <= k < b ==> t[k] == line[o + k];
  }

  /** The text in the parentheses of the INSERT statement: `('ip', 'dt', 'url')`. */
  function RowText(ip: string, dt: string, url: string): string {
    "('" + ip + "', '" + dt + "', '" + url + "')"
  }

  function FormatRow(r: Record): string
    requires Valid(r.dt)
  {
    RowText(r.ip, FormatDateTime(r.dt), r.url)
  }

  /**
   * Reading a row text back: the address runs to the first quote, the time is the next
   * 19 characters, the URL is whatever lies between the following `', '` and the closing `')`.
   */
  function ReadRow(row: string): Option<(string, string, string)> {
    if |row| < 2 || row[..2] != "('" then None
    else
      var n := QuoteFrom(row, 2);
      if !(n + 4 + 19 + 4 + 2 <= |row|) then None
      else
        var ip, afterIp := row[2..n], n + 4;
        var dt, afterDt := row[afterIp..afterIp + 19], afterIp + 19 + 4;
        if row[n..afterIp] == "', '" && row[afterIp + 19..afterDt] == "', '"
           && row[|row| - 2..] == "')"
        then Some((ip, dt, row[afterDt..|row| - 2]))
        else None
  }

  /** Index of the first `'` at or after `i`, or the end of the text. */
  function QuoteFrom(s: string, i: nat): (n: nat)
    requires i <= |s|
    ensures i <= n <= |s| && (n < |s| ==> s[n] == '\'')
    ensures forall k :: i <= k < n ==> s[k] != '\''
    decreases |s| - i
  {
    if i < |s| && s[i] != '\'' then QuoteFrom(s, i + 1) else i
  }

  /** A row text is unambiguous: address (no quote in it), time (19 characters) and URL can be read back. */
  lemma RowRoundTrip(ip: string, dt: string, url: string)
    requires forall k :: 0 <= k < |ip| ==> ip[k] != '\''
    requires |dt| == 19
    ensures ReadRow(RowText(ip, dt, url)) == Some((ip, dt, url))
  {
    var row := RowText(ip, dt, url);
    var n := 2 + |ip|;
    assert row[..2] == "('";
    assert row[2..n] == ip;
    assert row[n] == '\'';
    assert QuoteFrom(row, 2) == n by {
      QuoteFromAt(row, 2, n);
    }
    assert row[n..n + 4] == "', '";
    assert row[n + 4..n + 23] == dt;
    assert row[n + 23..n + 27] == "', '";
    assert row[n + 27..|row| - 2] == url;
    assert row[|row| - 2..] == "')";
  }

  lemma {:induction false} QuoteFromAt(s: string, i: nat, n: nat)
    requires i <= n < |s| && s[n] == '\'' && forall k :: i <= k < n ==> s[k] != '\''
    ensures QuoteFrom(s, i) == n
    decreases n - i
  {
    if i < n {
      QuoteFromAt(s, i + 1, n);
    }
  }

  const InsertHead := "INSERT INTO `log`(ip, dt, url) VALUES "

  /** `insert_rows`: one statement inserting the given row texts, joined by commas. */
  function InsertSql(rows: seq<string>): (sql: string)
    ensures |sql| >= |InsertHead| + 2
    ensures sql[..|InsertHead|] == InsertHead && sql[|sql| - 2..] == ";\n"
    ensures sql[|InsertHead|..|sql| - 2] == Join(",", rows)
  {
    var sql := InsertHead + Join(",", rows) + ";\n";
    assert sql[|InsertHead|..|sql| - 2] == Join(",", rows);
    sql
  }

  /** A statement is as long as its fixed head and tail, the row texts and one comma between each two of them. */
  lemma {:induction false} InsertSqlLength(rows: seq<string>)
    ensures rows == [] ==> |InsertSql(rows)| == |InsertHead| + 2
    ensures rows != [] ==> |InsertSql(rows)| == |InsertHead| + TotalLength(rows) + |rows| - 1 + 2
  {
    if rows != [] {
      JoinLength(",", rows);
    }
  }

  /** The row text of one line, or the error that stops the chunk. */
  function RowOf(line: string, escape: string -> string): (r: Result<string, ChunkError>)
  {
    match ParseRecord(line, escape)
    case Failure(e) => Failure(e)
    case Success(rec) => Success(FormatRow(rec))
  }

  /** The row of a parsed line reads back as its address, its UTC time and its stored URL. */
  lemma RowOfReadsBack(line: string, escape: string -> string)
    requires ParseRecord(line, escape).Success?
    ensures var rec := ParseRecord(line, escape).value;
      RowOf(line, escape) == Success(FormatRow(rec))
      && ReadRow(FormatRow(rec)) == Some((rec.ip, FormatDateTime(rec.dt), rec.url))
  {
    var g := ParseLine(line).value;
    IpHasNoQuote(line);
    var rec := ParseRecord(line, escape).value;
    assert rec.ip == g.ip;
    RowRoundTrip(rec.ip, FormatDateTime(rec.dt), rec.url);
  }

  /** The address group is digits and dots only, so it never holds a quote. */
  lemma IpHasNoQuote(line: string)
    requires ParseLine(line).Success?
    ensures forall k :: 0 <= k < |ParseLine(line).value.ip| ==> ParseLine(line).value.ip[k] != '\''
  {
    var l := MatchLayout(line).value;
    assert MatchIp(line) == Some((l.dot1, l.dot2, l.dot3, l.ipEnd));
    MatchIpExact(line, l.dot1, l.dot2, l.dot3, l.ipEnd);
    IpChars(line, l.dot1, l.dot2, l.dot3, l.ipEnd);
    assert ParseLine(line).value.ip == line[..l.ipEnd];
  }

  /** The per-line conversion of `process`, as a function value. */
  function RowFn(escape: string -> string): string -> Result<string, ChunkError> {
    (line: string) => RowOf(line, escape)
  }

  /** `process` on one chunk: the batching loop with each line turned into its row text. */
  function Process(lines: seq<string>, numrows: int, escape: string -> string): Batching.Outcome<string, ChunkError> {
    Batching.Process(lines, numrows, RowFn(escape), ZeroDivision)
  }

  /** The statements `process` executes, in order: one INSERT per batch. */
  function Statements(batches: seq<seq<string>>): (s: seq<string>)
  {
    seq(|batches|, j requires 0 <= j < |batches| => InsertSql(batches[j]))
  }

  /**
   * What one chunk adds to the table: the rows of its lines in order when every line parses;
   * otherwise the rows flushed before the failing line, which is reported. No lines, no statements.
   */
  lemma ProcessRows(lines: seq<string>, numrows: int, escape: string -> string)
    requires numrows != 0
    ensures var o, g := Process(lines, numrows, escape), Abs(numrows);
      var p := Batching.ParseAll(lines, RowFn(escape));
      && (o.error.None? <==> p.error.None?)
      && (o.error.None? ==> Flatten(o.batches) == p.rows)
      && (o.error.Some? ==> o.error == p.error && o.batches == Batching.Flushed(p.rows, g))
      && (o.error.Some? ==> exists lost :: Flatten(o.batches) + lost == p.rows && |lost| <= g)
      && (forall j :: 0 <= j < |o.batches| ==> o.batches[j] != [])
      && (lines == [] ==> Statements(o.batches) == [])
  {
    var row, g := RowFn(escape), Abs(numrows);
    Batching.ProcessReference(lines, numrows, row, ZeroDivision);
    var p := Batching.ParseAll(lines, row);
    Batching.BatchesShape(p.rows, g);
    Batching.FlushedShape(p.rows, g);
    var f := Batching.Flushed(p.rows, g);
    assert Flatten(f) + Batching.Pending(p.rows, g) == p.rows;
    assert forall j :: 0 <= j < |f| ==> f[j] != [] by {
      forall j | 0 <= j < |f| ensures f[j] != [] {
        assert j == 0 || |f[j]| == g;
      }
    }
  }
}
