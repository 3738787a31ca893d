/**
 * The CSV reader of app.js (`parseCsv`): a character loop with two modes,
 * inside and outside double quotes, followed by a step that pairs the first
 * record (the header) with every later record.
 */
module Csv {

  /** A data row: column name to cell text (a plain object in the widget). */
  type Row = map<string, string>

  /** The loop's variables: finished records (`out`), the record being built
      (`row`), the field being built (`field`) and the quote mode (`inQ`). */
  datatype Reader = Reader(records: seq<seq<string>>, row: seq<string>, field: string, quoted: bool)

  const Start := Reader([], [], "", false)

  /** Every finished record holds at least one field: a record is only ever
      pushed right after a field. */
  ghost predicate RecordsNonEmpty(recs: seq<seq<string>>) {
    forall k :: 0 <= k < |recs| ==> |recs[k]| >= 1
  }

  /** One pass of the loop body at the front of `s`: the new state and the
      number of characters consumed. Inside quotes a `"` followed by another
      `"` adds one `"` to the field (the loop looks one character ahead and
      skips it), any other `"` closes the quotes, and every other character
      is kept. Outside quotes `"` opens quotes, `,` ends the field, `\n` ends
      the field and the record, `\r` is dropped and every other character is
      kept. */
  function Step(st: Reader, s: string): (r: (Reader, nat))
    requires |s| > 0
    ensures 1 <= r.1 <= |s| && r.1 <= 2
    ensures r.1 == 2 <==> st.quoted && s[0] == '"' && |s| > 1 && s[1] == '"'
    ensures r.0.records == st.records || r.0.records == st.records + [st.row + [st.field]]
  {
    var c := s[0];
    if st.quoted then
      if c == '"' then
        if |s| > 1 && s[1] == '"' then (st.(field := st.field + ['"']), 2)
        else (st.(quoted := false), 1)
      else (st.(field := st.field + [c]), 1)
    else if c == '"' then (st.(quoted := true), 1)
    else if c == ',' then (st.(row := st.row + [st.field], field := ""), 1)
    else if c == '\n' then (Reader(st.records + [st.row + [st.field]], [], "", false), 1)
    else if c == '\r' then (st, 1)
    else (st.(field := st.field + [c]), 1)
  }

  /** What one pass of the loop body changes: the quote mode flips exactly
      on a lone `"`, and a record is pushed exactly on a `\n` outside
      quotes. */
  lemma StepEffects(st: Reader, s: string)
    requires |s| > 0
    ensures var r := Step(st, s);
      r.0.quoted != st.quoted <==> s[0] == '"' && r.1 == 1
    ensures var r := Step(st, s);
      r.0.records == (if !st.quoted && s[0] == '\n' then st.records + [st.row + [st.field]] else st.records)
  {
  }

  /** Runs the character loop over `s` from state `st`. */
  function Scan(st: Reader, s: string): (r: Reader)
    ensures RecordsNonEmpty(st.records) ==> RecordsNonEmpty(r.records)
    decreases |s|
  {
    if |s| == 0 then st
    else
      var next := Step(st, s);
      Scan(next.0, s[next.1..])
  }

  /** The records `parseCsv` collects: the loop's output, plus the pending
      record when the last field or record is non-empty. */
  function Records(csv: string): (recs: seq<seq<string>>)
    ensures RecordsNonEmpty(recs)
    ensures |csv| == 0 ==> recs == []
  {
    var st := Scan(Start, csv);
    if |st.field| > 0 || |st.row| > 0 then st.records + [st.row + [st.field]] else st.records
  }

  /** The text of `row[key]` where the widget reads a cell: a missing key
      reads as `undefined`, which every caller turns into `''`. */
  function Cell(row: Row, key: string): string {
    if key in row then row[key] else ""
  }

  /** Cell `i` of a record, or the empty string past its end (`r[idx] ?? ''`). */
  function CellAt(rec: seq<string>, i: nat): string {
    if i < |rec| then rec[i] else ""
  }

  /** No later header has the same name as header `i`, so its cell is the
      one that ends up in the row object. */
  predicate LastOccurrence(headers: seq<string>, i: nat) {
    forall j :: i < j < |headers| ==> headers[j] != headers[i]
  }

  /** The distinct names in a header list. */
  function Names(headers: seq<string>): set<string> {
    set h | h in headers
  }

  /** Every header's rightmost column supplies its cell in `o`. */
  predicate LastCellsWin(headers: seq<string>, rec: seq<string>, o: Row) {
    forall i :: 0 <= i < |headers| && LastOccurrence(headers, i) ==>
      headers[i] in o && o[headers[i]] == CellAt(rec, i)
  }

  /** The row object built for one record: every header is a key, and with
      repeated header names the rightmost column wins. */
  function ZipRow(headers: seq<string>, rec: seq<string>): (o: Row)
    ensures o.Keys == Names(headers)
    ensures LastCellsWin(headers, rec, o)
    decreases |headers|
  {
    if |headers| == 0 then map[]
    else
      var n := |headers| - 1;
      var prev := ZipRow(headers[..n], rec);
      var o := prev[headers[n] := CellAt(rec, n)];
      ZipStep(headers, rec, prev, o);
      o
  }

  /** The inductive step of `ZipRow`: the last column written over the
      object built from the others. */
  lemma ZipStep(headers: seq<string>, rec: seq<string>, prev: Row, o: Row)
    requires |headers| > 0
    requires prev.Keys == Names(headers[..|headers| - 1])
    requires LastCellsWin(headers[..|headers| - 1], rec, prev)
    requires o == prev[headers[|headers| - 1] := CellAt(rec, |headers| - 1)]
    ensures o.Keys == Names(headers)
    ensures LastCellsWin(headers, rec, o)
  {
    var n := |headers| - 1;
    assert headers[..n] + [headers[n]] == headers;
    LastCellsStep(headers, rec, prev, o);
  }

  lemma LastCellsStep(headers: seq<string>, rec: seq<string>, prev: Row, o: Row)
    requires |headers| > 0
    requires LastCellsWin(headers[..|headers| - 1], rec, prev)
    requires o == prev[headers[|headers| - 1] := CellAt(rec, |headers| - 1)]
    ensures LastCellsWin(headers, rec, o)
  {
    var n := |headers| - 1;
    var pre := headers[..n];
    forall i | 0 <= i < |headers| && LastOccurrence(headers, i)
      ensures headers[i] in o && o[headers[i]] == CellAt(rec, i)
    {
      if i < n {
        assert pre[i] == headers[i];
        assert forall j :: i < j < n ==> pre[j] == headers[j];
        assert LastOccurrence(pre, i);
      }
    }
  }

  /** What `parseCsv` returns. */
  datatype Table = Table(headers: seq<string>, rows: seq<Row>)

  /** `parseCsv`: the first record is the header, every later record becomes
      one row object keyed by exactly the header names. */
  function ParseCsv(csv: string): (t: Table)
    ensures var recs := Records(csv);
      && t.headers == (if |recs| == 0 then [] else recs[0])
      && |t.rows| == (if |recs| == 0 then 0 else |recs| - 1)
    ensures forall k :: 0 <= k < |t.rows| ==> t.rows[k].Keys == Names(t.headers)
    ensures forall k, i :: 0 <= k < |t.rows| && 0 <= i < |t.headers| && LastOccurrence(t.headers, i) ==>
      t.headers[i] in t.rows[k] && t.rows[k][t.headers[i]] == CellAt(Records(csv)[k + 1], i)
  {
    var recs := Records(csv);
    var headers := if |recs| == 0 then [] else recs[0];
    var body := if |recs| == 0 then [] else recs[1..];
    Table(headers, seq(|body|, k requires 0 <= k < |body| => ZipRow(headers, body[k])))
  }

  /** Header names are pairwise distinct. */
  predicate Distinct(headers: seq<string>) {
    forall i, j :: 0 <= i < j < |headers| ==> headers[i] != headers[j]
  }

  // ---------------------------------------------------------------------
  // A reference writer: every field quoted, every record ended by `\n`.
  // ---------------------------------------------------------------------

  /** Doubles every `"` of a field. */
  function EscapeQuotes(f: string): string
    decreases |f|
  {
    if |f| == 0 then ""
    else (if f[0] == '"' then "\"\"" else [f[0]]) + EscapeQuotes(f[1..])
  }

  function QuoteField(f: string): string {
    "\"" + EscapeQuotes(f) + "\""
  }

  function JoinFields(fs: seq<string>): string
    requires |fs| >= 1
    decreases |fs|
  {
    if |fs| == 1 then QuoteField(fs[0]) else QuoteField(fs[0]) + "," + JoinFields(fs[1..])
  }

  function Serialize(recs: seq<seq<string>>): string
    requires RecordsNonEmpty(recs)
    decreases |recs|
  {
    if |recs| == 0 then "" else JoinFields(recs[0]) + "\n" + Serialize(recs[1..])
  }

  // One step of the loop, for each character the reference writer emits.

  lemma ScanOpen(st: Reader, t: string)
    requires !st.quoted
    ensures Scan(st, "\"" + t) == Scan(st.(quoted := true), t)
  {
    var u := "\"" + t;
    assert u[0] == '"' && u[1..] == t;
    assert Step(st, u) == (st.(quoted := true), 1);
  }

  lemma ScanClose(st: Reader, t: string)
    requires st.quoted
    requires t == [] || t[0] != '"'
    ensures Scan(st, "\"" + t) == Scan(st.(quoted := false), t)
  {
    var u := "\"" + t;
    assert u[0] == '"' && u[1..] == t;
    assert |u| > 1 ==> u[1] == t[0];
    assert Step(st, u) == (st.(quoted := false), 1);
  }

  lemma ScanEscapedQuote(st: Reader, t: string)
    requires st.quoted
    ensures Scan(st, "\"\"" + t) == Scan(st.(field := st.field + ['"']), t)
  {
    var u := "\"\"" + t;
    assert u[0] == '"' && u[1] == '"';
    assert u[2..] == t;
    assert Step(st, u) == (st.(field := st.field + ['"']), 2);
  }

  lemma ScanQuotedChar(st: Reader, c: char, t: string)
    requires st.quoted && c != '"'
    ensures Scan(st, [c] + t) == Scan(st.(field := st.field + [c]), t)
  {
    var u := [c] + t;
    assert u[0] == c && u[1..] == t;
    assert Step(st, u) == (st.(field := st.field + [c]), 1);
  }

  lemma ScanComma(st: Reader, t: string)
    requires !st.quoted
    ensures Scan(st, "," + t) == Scan(st.(row := st.row + [st.field], field := ""), t)
  {
    var u := "," + t;
    assert u[0] == ',' && u[1..] == t;
    assert Step(st, u) == (st.(row := st.row + [st.field], field := ""), 1);
  }

  lemma ScanNewline(st: Reader, t: string)
    requires !st.quoted
    ensures Scan(st, "\n" + t) == Scan(Reader(st.records + [st.row + [st.field]], [], "", false), t)
  {
    var u := "\n" + t;
    assert u[0] == '\n' && u[1..] == t;
    assert Step(st, u) == (Reader(st.records + [st.row + [st.field]], [], "", false), 1);
  }

  /** Escaping works one character at a time. */
  lemma EscapeQuotesCons(x: string, rest: string)
    requires |x| > 0
    ensures EscapeQuotes(x) + rest
         == (if x[0] == '"' then "\"\"" else [x[0]]) + (EscapeQuotes(x[1..]) + rest)
  {
  }

  /** Inside quotes, the first escaped character of a field body adds that
      character to the field. */
  lemma ScanEscapedHead(st: Reader, x: string, rest: string)
    requires st.quoted && |x| > 0
    ensures Scan(st, EscapeQuotes(x) + rest) == Scan(st.(field := st.field + [x[0]]), EscapeQuotes(x[1..]) + rest)
  {
    EscapeQuotesCons(x, rest);
    if x[0] == '"' {
      ScanEscapedQuote(st, EscapeQuotes(x[1..]) + rest);
    } else {
      ScanQuotedChar(st, x[0], EscapeQuotes(x[1..]) + rest);
    }
  }

  /** Inside quotes, an escaped field body adds exactly the field's text,
      whatever commas, quotes or line breaks it holds, and leaves the reader
      inside quotes. */
  lemma {:induction false} ScanEscaped(st: Reader, x: string)
    requires st.quoted
    ensures Scan(st, EscapeQuotes(x)) == st.(field := st.field + x)
    decreases |x|
  {
    if |x| == 0 {
      assert st.field + x == st.field;
    } else {
      var st' := st.(field := st.field + [x[0]]);
      ScanEscapedHead(st, x, []);
      assert EscapeQuotes(x) + [] == EscapeQuotes(x);
      assert EscapeQuotes(x[1..]) + [] == EscapeQuotes(x[1..]);
      ScanEscaped(st', x[1..]);
      assert st'.field + x[1..] == st.field + x;
    }
  }

  /** The escaped body and its closing quote, followed by anything but `"`. */
  lemma ScanQuotedBody(st: Reader, x: string, rest: string)
    requires st.quoted
    requires rest == [] || rest[0] != '"'
    ensures Scan(st, EscapeQuotes(x) + ("\"" + rest)) == Scan(st.(field := st.field + x, quoted := false), rest)
  {
    ScanEscaped(st, x);
    ScanAppend(st, EscapeQuotes(x), "\"" + rest);
    ScanClose(st.(field := st.field + x), rest);
  }

  lemma ScanQuotedField(st: Reader, x: string, rest: string)
    requires !st.quoted
    requires rest == [] || rest[0] != '"'
    ensures Scan(st, QuoteField(x) + rest) == Scan(st.(field := st.field + x), rest)
  {
    assert QuoteField(x) + rest == "\"" + (EscapeQuotes(x) + ("\"" + rest));
    ScanOpen(st, EscapeQuotes(x) + ("\"" + rest));
    ScanQuotedBody(st.(quoted := true), x, rest);
  }

  /** The last written field of a record, then the record's `\n`. */
  lemma ScanLastField(records: seq<seq<string>>, row: seq<string>, f: string, rest: string)
    ensures Scan(Reader(records, row, "", false), QuoteField(f) + ("\n" + rest))
         == Scan(Reader(records + [row + [f]], [], "", false), rest)
  {
    ScanQuotedField(Reader(records, row, "", false), f, "\n" + rest);
    assert "" + f == f;
    ScanNewline(Reader(records, row, f, false), rest);
  }

  /** A written field that another field follows, then the `,`. */
  lemma ScanNextField(records: seq<seq<string>>, row: seq<string>, f: string, rest: string)
    ensures Scan(Reader(records, row, "", false), QuoteField(f) + ("," + rest))
         == Scan(Reader(records, row + [f], "", false), rest)
  {
    ScanQuotedField(Reader(records, row, "", false), f, "," + rest);
    assert "" + f == f;
    ScanComma(Reader(records, row, f, false), rest);
  }

  /** A written record is read back as one record, field for field. */
  lemma {:induction false} ScanFields(records: seq<seq<string>>, row: seq<string>, fs: seq<string>, rest: string)
    requires |fs| >= 1
    ensures Scan(Reader(records, row, "", false), JoinFields(fs) + "\n" + rest)
         == Scan(Reader(records + [row + fs], [], "", false), rest)
    decreases |fs|
  {
    if |fs| == 1 {
      assert JoinFields(fs) + "\n" + rest == QuoteField(fs[0]) + ("\n" + rest);
      ScanLastField(records, row, fs[0], rest);
      assert row + fs == row + [fs[0]];
    } else {
      var tail := JoinFields(fs[1..]) + "\n" + rest;
      assert JoinFields(fs) + "\n" + rest == QuoteField(fs[0]) + ("," + tail);
      ScanNextField(records, row, fs[0], tail);
      ScanFields(records, row + [fs[0]], fs[1..], rest);
      assert row + [fs[0]] + fs[1..] == row + fs;
    }
  }

  lemma {:induction false} ScanSerialized(records: seq<seq<string>>, recs: seq<seq<string>>)
    requires RecordsNonEmpty(recs)
    ensures Scan(Reader(records, [], "", false), Serialize(recs)) == Reader(records + recs, [], "", false)
    decreases |recs|
  {
    if |recs| == 0 {
      assert records + recs == records;
    } else {
      var next := records + [recs[0]];
      assert Scan(Reader(records, [], "", false), Serialize(recs))
          == Scan(Reader(next, [], "", false), Serialize(recs[1..])) by {
        ScanFields(records, [], recs[0], Serialize(recs[1..]));
        assert [] + recs[0] == recs[0];
      }
      assert Scan(Reader(next, [], "", false), Serialize(recs[1..])) == Reader(next + recs[1..], [], "", false) by {
        ScanSerialized(next, recs[1..]);
      }
      assert next + recs[1..] == records + recs;
    }
  }

  /** Reading what the reference writer wrote gives back the same records. */
  lemma RecordsRoundTrip(recs: seq<seq<string>>)
    requires RecordsNonEmpty(recs)
    ensures Records(Serialize(recs)) == recs
  {
    ScanSerialized([], recs);
    assert [] + recs == recs;
  }

  /** A written table with distinct headers and full-width records parses back
      to the same header list, one row per record, every cell in place. */
  lemma ParseCsvRoundTrip(headers: seq<string>, body: seq<seq<string>>)
    requires |headers| >= 1 && Distinct(headers)
    requires forall k :: 0 <= k < |body| ==> |body[k]| == |headers|
    ensures var t := ParseCsv(Serialize([headers] + body));
      && t.headers == headers
      && |t.rows| == |body|
      && forall k, i :: 0 <= k < |body| && 0 <= i < |headers| ==> headers[i] in t.rows[k] && t.rows[k][headers[i]] == body[k][i]
  {
    var recs := [headers] + body;
    assert forall k :: 0 <= k < |body| ==> recs[k + 1] == body[k];
    RecordsRoundTrip(recs);
  }

  /** The loop body decides the same on `s + t` as on `s`, unless it is
      looking ahead past the end of `s` at a `"`. */
  lemma StepAppend(st: Reader, s: string, t: string)
    requires |s| > 0
    requires !(st.quoted && s == "\"" && t != [] && t[0] == '"')
    ensures Step(st, s + t) == Step(st, s)
  {
    assert (s + t)[0] == s[0];
    if |s| > 1 {
      assert (s + t)[1] == s[1];
    } else if st.quoted && s[0] == '"' {
      assert s == "\"";
    }
  }

  /** The loop can be split at any point except between a closing quote at
      the end of `s`, which the loop decides by looking one character ahead,
      and a `"` at the start of `t`. */
  lemma {:induction false} ScanAppend(st: Reader, s: string, t: string)
    requires t == [] || t[0] != '"' || Scan(st, s).quoted || s == [] || s[|s| - 1] != '"'
    ensures Scan(st, s + t) == Scan(Scan(st, s), t)
    decreases |s|
  {
    if |s| == 0 {
      assert s + t == t;
    } else {
      var next := Step(st, s);
      if st.quoted && s == "\"" {
        assert Scan(st, s) == st.(quoted := false) by {
          assert s[1..] == [];
        }
      }
      StepAppend(st, s, t);
      var u := s[next.1..];
      assert (s + t)[next.1..] == u + t;
      assert u != [] ==> u[|u| - 1] == s[|s| - 1];
      ScanAppend(next.0, u, t);
    }
  }

  /** Inside quotes, a doubled quote puts one `"` into the field and the
      reader stays inside quotes. */
  lemma QuotedDoubleQuote(s: string, t: string)
    requires Scan(Start, s).quoted
    ensures var st := Scan(Start, s);
      Scan(Start, s + "\"\"" + t) == Scan(st.(field := st.field + "\""), t)
  {
    ScanAppend(Start, s, "\"\"" + t);
    assert s + "\"\"" + t == s + ("\"\"" + t);
    assert ("\"\"" + t)[2..] == t;
  }

  /** Inside quotes, every character other than `"` (commas, `\n` and `\r`
      included) is kept literally in the field. */
  lemma QuotedCharKept(s: string, c: char, t: string)
    requires Scan(Start, s).quoted
    requires c != '"'
    ensures var st := Scan(Start, s);
      Scan(Start, s + [c] + t) == Scan(st.(field := st.field + [c]), t)
  {
    ScanAppend(Start, s, [c] + t);
    assert s + [c] + t == s + ([c] + t);
    assert ([c] + t)[1..] == t;
  }

  lemma ScanCarriageReturn(st: Reader, t: string)
    requires !st.quoted
    ensures Scan(st, "\r" + t) == Scan(st, t)
  {
    var u := "\r" + t;
    assert u[0] == '\r' && u[1..] == t;
    assert Step(st, u) == (st, 1);
  }

  lemma AppendAssoc(a: string, b: string, c: string)
    ensures a + b + c == a + (b + c)
  {
  }

  /** Outside quotes a `\r` is dropped: removing it changes no record, as long
      as it does not separate a closing quote from a following `"`. */
  lemma CarriageReturnIgnored(s: string, t: string)
    requires !Scan(Start, s).quoted
    requires t == [] || t[0] != '"' || s == [] || s[|s| - 1] != '"'
    ensures Records(s + "\r" + t) == Records(s + t)
  {
    var mid := Scan(Start, s);
    var rt := "\r" + t;
    assert Scan(Start, s + "\r" + t) == Scan(mid, rt) by {
      AppendAssoc(s, "\r", t);
      assert rt[0] == '\r';
      ScanAppend(Start, s, rt);
    }
    assert Scan(mid, "\r" + t) == Scan(mid, t) by {
      ScanCarriageReturn(mid, t);
    }
    assert Scan(Start, s + t) == Scan(mid, t) by {
      ScanAppend(Start, s, t);
    }
  }

  /** Outside quotes, a final `\n` adds no record exactly when a field or
      record is pending; after a completed record it adds a record holding
      one empty field. */
  lemma TrailingNewline(s: string)
    requires !Scan(Start, s).quoted
    ensures var st := Scan(Start, s);
      Records(s + "\n") == Records(s) <==> (|st.field| > 0 || |st.row| > 0)
    ensures var st := Scan(Start, s);
      |st.field| == 0 && |st.row| == 0 ==> Records(s + "\n") == Records(s) + [[""]]
  {
    ScanAppend(Start, s, "\n");
    var st := Scan(Start, s);
    assert "\n"[1..] == [];
    assert Scan(Start, s + "\n") == Reader(st.records + [st.row + [st.field]], [], "", false);
    if |st.field| == 0 && |st.row| == 0 {
      assert st.row + [st.field] == [""];
    }
  }
}
