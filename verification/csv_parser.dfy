/** The hand-written CSV reader of src/utils/csvParser.ts.

    It is deliberately not an RFC 4180 reader: lines are split on `\n`
    (with an optional preceding `\r`) and never joined, a doubled quote is
    not an escape, and the header line is cut at every comma whatever its
    quotes. Data lines are cut at commas outside double quotes, and quote
    characters are dropped. */
module CsvParser {
  import opened Wrappers
  import opened Strings

  const EmptyFileMessage := "CSV file appears to be empty"
  const MissingColumnsMessage := "CSV must contain \"name\" and \"email\" columns"

  /* ---------------------------------------------------------------------- */
  /* The JavaScript object built for one data line                          */
  /* ---------------------------------------------------------------------- */

  /** One own property of a row object. */
  datatype Entry = Entry(key: string, value: string)

  /** A `Record<string, string>`: its properties in insertion order. */
  type Row = seq<Entry>

  /** What `parseCSV` returns: the rows and the error messages. */
  datatype ParseResult = ParseResult(data: seq<Row>, errors: seq<string>)

  /** The property names of a row, in insertion order. */
  function Keys(row: Row): (ks: seq<string>)
    ensures |ks| == |row|
  {
    if row == [] then [] else [row[0].key] + Keys(row[1..])
  }

  /** Key `i` is the key of entry `i`: `Object.keys` lists the entries in
      order. */
  lemma {:induction false} KeysAt(row: Row, i: nat)
    requires i < |row|
    ensures Keys(row)[i] == row[i].key
    decreases |row|
  {
    if i > 0 {
      KeysAt(row[1..], i - 1);
    }
  }

  /** No string occurs twice. */
  predicate Distinct(s: seq<string>) {
    forall i, j :: 0 <= i < j < |s| ==> s[i] != s[j]
  }

  /** `row[key]`, or `None` when the row has no such property. */
  function Lookup(row: Row, key: string): (r: Option<string>)
    ensures r.None? <==> key !in Keys(row)
  {
    if row == [] then None
    else if row[0].key == key then Some(row[0].value)
    else Lookup(row[1..], key)
  }

  /** `row[key] = value`: overwrites an existing property in place, or adds
      a new one at the end. */
  function Put(row: Row, key: string, value: string): (r: Row)
    ensures Lookup(r, key) == Some(value)
    ensures forall k :: k != key ==> Lookup(r, k) == Lookup(row, k)
    ensures key in Keys(row) ==> Keys(r) == Keys(row)
    ensures key !in Keys(row) ==> Keys(r) == Keys(row) + [key]
    ensures forall e :: e in r ==> e in row || e == Entry(key, value)
  {
    if row == [] then [Entry(key, value)]
    else if row[0].key == key then [Entry(key, value)] + row[1..]
    else [row[0]] + Put(row[1..], key, value)
  }

  /** `s` with every repetition of an earlier element removed: the order in
      which a JavaScript object lists keys assigned in the order of `s`. */
  function FirstOccurrences(s: seq<string>): (d: seq<string>)
    ensures Distinct(d)
    ensures forall x :: x in d <==> x in s
  {
    if s == [] then []
    else
      var n := |s| - 1;
      var d := FirstOccurrences(s[..n]);
      assert forall x :: x in s <==> x in s[..n] || x == s[n] by {
        assert s == s[..n] + [s[n]];
      }
      if s[n] in s[..n] then d else d + [s[n]]
  }

  /** `value.replace(/^"|"$/g, '')`: one leading and one trailing double
      quote are removed. */
  function StripQuotes(v: string): (r: string)
    ensures '"' !in v ==> r == v
    ensures |r| <= |v|
  {
    var a := if v != [] && v[0] == '"' then v[1..] else v;
    if a != [] && a[|a| - 1] == '"' then a[..|a| - 1] else a
  }

  /** The value stored for column `j` (csvParser.ts lines 69-74): the field
      of that column with surrounding quotes removed, or '' when the line
      has fewer fields. */
  function Cell(values: seq<string>, j: nat): string {
    if j < |values| then StripQuotes(values[j]) else ""
  }

  /** The row object for one data line: header `j` is assigned `Cell(values, j)`
      for `j` from left to right, so a repeated header keeps its first
      position and its last value. */
  function BuildRow(headers: seq<string>, values: seq<string>): (row: Row)
    ensures Keys(row) == FirstOccurrences(headers)
    decreases |headers|
  {
    if headers == [] then []
    else
      var n := |headers| - 1;
      var prev := BuildRow(headers[..n], values);
      assert headers[n] in Keys(prev) <==> headers[n] in headers[..n];
      Put(prev, headers[n], Cell(values, n))
  }

  /** Column `j` is the last one carrying its header. */
  predicate IsLastOccurrence(headers: seq<string>, j: nat) {
    j < |headers| && forall k :: j < k < |headers| ==> headers[k] != headers[j]
  }

  /** Under each header the row holds the value of the last column with that
      header; missing trailing fields read as '' and surplus fields are
      never looked at. */
  lemma {:induction false} BuildRowValues(headers: seq<string>, values: seq<string>, j: nat)
    requires IsLastOccurrence(headers, j)
    ensures Lookup(BuildRow(headers, values), headers[j]) == Some(Cell(values, j))
    decreases |headers|
  {
    if j < |headers| - 1 {
      BuildRowEarlierValue(headers, values, j);
    } else {
      BuildRowLast(headers, values);
    }
  }

  /** An earlier column that is the last with its header keeps its value
      when the remaining columns are assigned. */
  lemma BuildRowEarlierValue(headers: seq<string>, values: seq<string>, j: nat)
    requires IsLastOccurrence(headers, j) && j < |headers| - 1
    ensures Lookup(BuildRow(headers, values), headers[j]) == Some(Cell(values, j))
    decreases |headers|, 0
  {
    var n := |headers| - 1;
    assert IsLastOccurrence(headers[..n], j);
    BuildRowValues(headers[..n], values, j);
    BuildRowEarlierColumn(headers, values, j);
  }

  /** The last column is assigned after all the others. */
  lemma BuildRowLast(headers: seq<string>, values: seq<string>)
    requires headers != []
    ensures var n := |headers| - 1;
      && BuildRow(headers, values) == Put(BuildRow(headers[..n], values), headers[n], Cell(values, n))
      && Lookup(BuildRow(headers, values), headers[n]) == Some(Cell(values, n))
  {
  }

  /** A header that does not occur in the last column reads the same before
      and after that column is assigned. */
  lemma BuildRowEarlierColumn(headers: seq<string>, values: seq<string>, j: nat)
    requires j < |headers| - 1 && headers[j] != headers[|headers| - 1]
    ensures var n := |headers| - 1;
      Lookup(BuildRow(headers, values), headers[j]) == Lookup(BuildRow(headers[..n], values), headers[..n][j])
  {
    BuildRowLast(headers, values);
  }

  /** With distinct headers, column `j` is stored under its own header, as
      the field itself when the line has one and as '' otherwise. */
  lemma BuildRowDistinctHeaders(headers: seq<string>, values: seq<string>, j: nat)
    requires Distinct(headers) && j < |headers|
    requires forall i :: 0 <= i < |values| ==> '"' !in values[i]
    ensures Lookup(BuildRow(headers, values), headers[j]) == Some(if j < |values| then values[j] else "")
  {
    BuildRowValues(headers, values, j);
  }

  /** Every value stored in the row is one of the cells, or ''. */
  lemma {:induction false} BuildRowEntries(headers: seq<string>, values: seq<string>)
    ensures forall e :: e in BuildRow(headers, values) ==>
      e.value == "" || exists j :: 0 <= j < |values| && e.value == StripQuotes(values[j])
    decreases |headers|
  {
    if headers != [] {
      BuildRowEntries(headers[..|headers| - 1], values);
    }
  }

  /* ---------------------------------------------------------------------- */
  /* Splitting a data line into fields                                      */
  /* ---------------------------------------------------------------------- */

  /** The untrimmed fields of `s` when scanning starts inside quotes iff
      `inQuote`: a quote toggles the state and is dropped, a comma outside
      quotes ends a field, every other character is kept. */
  function RawFields(s: string, inQuote: bool): (r: seq<string>)
    ensures |r| >= 1
    decreases |s|
  {
    if s == [] then [""]
    else if s[0] == '"' then RawFields(s[1..], !inQuote)
    else if s[0] == ',' && !inQuote then [""] + RawFields(s[1..], inQuote)
    else
      var rest := RawFields(s[1..], inQuote);
      [[s[0]] + rest[0]] + rest[1..]
  }

  /** Every character of the line is either a quote, which is dropped, a
      comma outside quotes, which ends a field, or kept in a field. */
  lemma {:induction false} RawFieldsLength(s: string, inQuote: bool)
    ensures var r := RawFields(s, inQuote); TotalLength(r) + |r| - 1 == |s| - multiset(s)['"']
    decreases |s|
  {
    if s != [] {
      assert s == [s[0]] + s[1..];
      var rest := RawFields(s[1..], inQuote);
      if s[0] == '"' {
        RawFieldsLength(s[1..], !inQuote);
      } else if s[0] == ',' && !inQuote {
        RawFieldsLength(s[1..], inQuote);
        assert ([""] + rest)[1..] == rest;
      } else {
        RawFieldsLength(s[1..], inQuote);
        var r := [[s[0]] + rest[0]] + rest[1..];
        assert r[1..] == rest[1..];
      }
    }
  }

  /** Each string trimmed. */
  function TrimAll(parts: seq<string>): (r: seq<string>)
    ensures |r| == |parts|
    ensures forall i :: 0 <= i < |parts| ==> r[i] == Trim(parts[i])
  {
    seq(|parts|, i requires 0 <= i < |parts| => Trim(parts[i]))
  }

  /** The fields of a data line, as the quote-aware loop of csvParser.ts
      lines 45-63 leaves them. */
  function Fields(line: string): (r: seq<string>)
    ensures |r| >= 1
    ensures forall i :: 0 <= i < |r| ==> '"' !in r[i] && IsTrimmed(r[i])
  {
    RawFieldsQuoteFree(line, false);
    TrimAllKeeps(RawFields(line, false), '"');
    TrimAll(RawFields(line, false))
  }

  /** After the scan has consumed `line[..j]`, the finished raw fields
      `done`, the field in progress `current` and the quote state together
      account for every raw field of the line. */
  ghost predicate ScanAccounts(line: string, j: nat, done: seq<string>, current: string, inQuote: bool)
    requires j <= |line|
  {
    var t := RawFields(line[j..], inQuote);
    RawFields(line, false) == done + [current + t[0]] + t[1..]
  }

  /** Consuming one more character keeps the account. */
  lemma ScanStep(line: string, j: nat, done: seq<string>, current: string, inQuote: bool)
    requires j < |line| && ScanAccounts(line, j, done, current, inQuote)
    ensures line[j] == '"' ==> ScanAccounts(line, j + 1, done, current, !inQuote)
    ensures line[j] == ',' && !inQuote ==> ScanAccounts(line, j + 1, done + [current], "", inQuote)
    ensures line[j] != '"' && !(line[j] == ',' && !inQuote) ==>
      ScanAccounts(line, j + 1, done, current + [line[j]], inQuote)
  {
    var c := line[j];
    assert line[j..] == [c] + line[j + 1..];
    var rest := RawFields(line[j + 1..], inQuote);
    if c == '"' {
    } else if c == ',' && !inQuote {
      assert RawFields(line[j..], inQuote) == [""] + rest;
      assert ([""] + rest)[1..] == rest;
      assert current + "" == current;
      assert "" + rest[0] == rest[0];
      assert [rest[0]] + rest[1..] == rest;
    } else {
      assert RawFields(line[j..], inQuote) == [[c] + rest[0]] + rest[1..];
      assert current + ([c] + rest[0]) == (current + [c]) + rest[0];
    }
  }

  /** Trimming one more finished field extends the trimmed list by it. */
  lemma TrimAllSnoc(done: seq<string>, current: string)
    ensures TrimAll(done + [current]) == TrimAll(done) + [Trim(current)]
  {
  }

  /** Once the whole line is consumed, the finished fields and the field in
      progress are all the raw fields. */
  lemma ScanEnd(line: string, done: seq<string>, current: string, inQuote: bool)
    requires ScanAccounts(line, |line|, done, current, inQuote)
    ensures RawFields(line, false) == done + [current]
  {
    assert line[|line|..] == [];
    assert current + "" == current;
  }

  /** The character-by-character scan of csvParser.ts lines 45-63. It
      computes exactly `Fields`. */
  method ScanFields(line: string) returns (values: seq<string>)
    ensures values == Fields(line)
  {
    values := [];
    var inQuote := false;
    var current := "";
    ghost var done: seq<string> := [];
    var j := 0;
    assert line[0..] == line;
    ghost var raw := RawFields(line, false);
    assert current + raw[0] == raw[0];
    assert raw == [raw[0]] + raw[1..];
    while j < |line|
      invariant 0 <= j <= |line|
      invariant values == TrimAll(done)
      invariant ScanAccounts(line, j, done, current, inQuote)
    {
      ScanStep(line, j, done, current, inQuote);
      var c := line[j];
      if c == '"' {
        inQuote := !inQuote;
      } else if c == ',' && !inQuote {
        TrimAllSnoc(done, current);
        values := values + [Trim(current)];
        done := done + [current];
        current := "";
      } else {
        current := current + [c];
      }
      j := j + 1;
    }
    ScanEnd(line, done, current, inQuote);
    TrimAllSnoc(done, current);
    values := values + [Trim(current)];
  }

  /** No raw field contains a quote character. */
  lemma {:induction false} RawFieldsQuoteFree(s: string, inQuote: bool)
    ensures forall i :: 0 <= i < |RawFields(s, inQuote)| ==> '"' !in RawFields(s, inQuote)[i]
    decreases |s|
  {
    if s != [] {
      if s[0] == '"' {
        RawFieldsQuoteFree(s[1..], !inQuote);
      } else {
        RawFieldsQuoteFree(s[1..], inQuote);
      }
    }
  }

  /** Trimming keeps only characters that were there. */
  lemma TrimKeeps(s: string, c: char)
    requires c !in s
    ensures c !in Trim(s)
  {
    var t := TrimStart(s);
    assert forall x :: x in t ==> x in s;
  }

  /** Trimming every string keeps a character out of all of them. */
  lemma TrimAllKeeps(parts: seq<string>, c: char)
    requires forall i :: 0 <= i < |parts| ==> c !in parts[i]
    ensures forall i :: 0 <= i < |parts| ==> c !in TrimAll(parts)[i]
  {
    forall i | 0 <= i < |parts|
      ensures c !in TrimAll(parts)[i]
    {
      TrimKeeps(parts[i], c);
    }
  }

  /** A quote-free prefix stays in the current field; a comma in it splits
      nothing when the scan is inside quotes. */
  lemma {:induction false} RawFieldsGlue(f: string, rest: string, inQuote: bool)
    requires '"' !in f
    requires inQuote || ',' !in f
    ensures RawFields(f + rest, inQuote)
      == [f + RawFields(rest, inQuote)[0]] + RawFields(rest, inQuote)[1..]
    decreases |f|
  {
    var r := RawFields(rest, inQuote);
    if f == [] {
      assert f + rest == rest;
      assert f + r[0] == r[0];
      assert r == [r[0]] + r[1..];
    } else {
      RawFieldsGlue(f[1..], rest, inQuote);
      assert (f + rest)[1..] == f[1..] + rest;
      assert f[0] in f;
      var inner := RawFields(f[1..] + rest, inQuote);
      assert inner == [f[1..] + r[0]] + r[1..];
      RawFieldsKeep(f + rest, inQuote);
      assert [f[0]] + (f[1..] + r[0]) == f + r[0];
      assert inner[1..] == r[1..];
    }
  }

  /** A character that is neither a quote nor a field-ending comma joins
      the first field. */
  lemma RawFieldsKeep(s: string, inQuote: bool)
    requires s != [] && s[0] != '"' && (inQuote || s[0] != ',')
    ensures var rest := RawFields(s[1..], inQuote);
      RawFields(s, inQuote) == [[s[0]] + rest[0]] + rest[1..]
  {
  }

  /** Without quote characters, a data line is cut exactly like `split(',')`. */
  lemma {:induction false} RawFieldsWithoutQuotes(s: string)
    requires '"' !in s
    ensures RawFields(s, false) == SplitOn(s, ",")
    decreases |s|
  {
    if s != [] {
      RawFieldsWithoutQuotes(s[1..]);
      assert s[..1] == [s[0]];
    }
  }

  /** `"f"`: a field wrapped in quotes. */
  function Quote(f: string): string {
    "\"" + f + "\""
  }

  /** Each field quoted. */
  function QuoteAll(fs: seq<string>): (r: seq<string>)
    ensures |r| == |fs|
    ensures forall i :: 0 <= i < |fs| ==> r[i] == Quote(fs[i])
  {
    seq(|fs|, i requires 0 <= i < |fs| => Quote(fs[i]))
  }

  /** Quoting each field and joining with commas is read back field for field
      by the raw scan, commas inside the fields included. */
  lemma {:induction false} RawFieldsOfQuotedLine(fs: seq<string>)
    requires |fs| >= 1
    requires forall i :: 0 <= i < |fs| ==> '"' !in fs[i]
    ensures RawFields(Join(QuoteAll(fs), ","), false) == fs
    decreases |fs|
  {
    var f := fs[0];
    if |fs| == 1 {
      assert Join(QuoteAll(fs), ",") == "\"" + (f + "\"");
      RawFieldsGlue(f, "\"", true);
      assert RawFields("\"", true) == RawFields("", false);
      assert f + "" == f;
    } else {
      var tail := Join(QuoteAll(fs[1..]), ",");
      assert QuoteAll(fs)[1..] == QuoteAll(fs[1..]);
      assert Join(QuoteAll(fs), ",") == "\"" + (f + ("\"," + tail));
      RawFieldsGlue(f, "\"," + tail, true);
      assert ("\"," + tail)[1..] == "," + tail;
      assert ("," + tail)[1..] == tail;
      RawFieldsOfQuotedLine(fs[1..]);
      assert RawFields("," + tail, false) == [""] + fs[1..];
      assert f + "" == f;
    }
  }

  /** Data written by quoting trimmed, quote-free fields reads back as those
      fields, even when they contain commas. */
  lemma QuotedLineRoundTrip(fs: seq<string>)
    requires |fs| >= 1
    requires forall i :: 0 <= i < |fs| ==> '"' !in fs[i] && IsTrimmed(fs[i])
    ensures Fields(Join(QuoteAll(fs), ",")) == fs
  {
    RawFieldsOfQuotedLine(fs);
  }

  /* ---------------------------------------------------------------------- */
  /* Lines, header and the whole parse                                      */
  /* ---------------------------------------------------------------------- */

  /** `s` without one trailing carriage return. */
  function DropCarriageReturn(s: string): string {
    if s != [] && s[|s| - 1] == '\r' then s[..|s| - 1] else s
  }

  /** `csvText.split(/\r?\n/)`: cut at each line feed; a carriage return
      directly before a line feed belongs to the separator. */
  function SplitLines(text: string): (lines: seq<string>)
    ensures |lines| == multiset(text)['\n'] + 1
  {
    SplitOnCharCount(text, '\n');
    var pieces := SplitOn(text, "\n");
    seq(|pieces|, i requires 0 <= i < |pieces| =>
      if i < |pieces| - 1 then DropCarriageReturn(pieces[i]) else pieces[i])
  }

  /** `lines.filter(line => line.trim() !== '')`, keeping order. */
  function NonBlank(lines: seq<string>): (r: seq<string>)
    ensures forall i :: 0 <= i < |r| ==> !IsBlank(r[i])
    ensures |r| <= |lines|
  {
    if lines == [] then []
    else (if IsBlank(lines[0]) then [] else [lines[0]]) + NonBlank(lines[1..])
  }

  /** The filter keeps exactly the non-blank lines. */
  lemma {:induction false} NonBlankMembers(lines: seq<string>)
    ensures forall x :: x in NonBlank(lines) <==> x in lines && !IsBlank(x)
  {
    if lines != [] {
      NonBlankMembers(lines[1..]);
      assert lines == [lines[0]] + lines[1..];
    }
  }

  /** Filtering a concatenation filters each part. */
  lemma {:induction false} NonBlankAppend(a: seq<string>, b: seq<string>)
    ensures NonBlank(a + b) == NonBlank(a) + NonBlank(b)
    decreases |a|
  {
    if a != [] {
      assert (a + b)[0] == a[0] && (a + b)[1..] == a[1..] + b;
      NonBlankAppend(a[1..], b);
    } else {
      assert a + b == b;
    }
  }

  /** Lines that contain no line feed, joined with line feeds, split back
      into the same lines, provided none but the last ends in a carriage
      return (that one would be taken for part of a CRLF break). */
  lemma SplitLinesOfJoin(lines: seq<string>)
    requires |lines| >= 1
    requires forall i :: 0 <= i < |lines| ==> '\n' !in lines[i]
    requires forall i :: 0 <= i < |lines| - 1 ==> DropCarriageReturn(lines[i]) == lines[i]
    ensures SplitLines(Join(lines, "\n")) == lines
  {
    SplitOnJoin(lines, '\n');
  }

  /** Every line but the last with a carriage return appended. */
  function CrTerminated(lines: seq<string>): (r: seq<string>)
    ensures |r| == |lines|
    ensures forall i :: 0 <= i < |lines| ==> DropCarriageReturn(r[i]) == lines[i] || i == |lines| - 1
  {
    seq(|lines|, i requires 0 <= i < |lines| => if i < |lines| - 1 then lines[i] + "\r" else lines[i])
  }

  /** Joining with CRLF is joining the carriage-return-terminated lines with
      line feeds. */
  lemma {:induction false} JoinCrlf(lines: seq<string>)
    requires |lines| >= 1
    ensures Join(lines, "\r\n") == Join(CrTerminated(lines), "\n")
    decreases |lines|
  {
    if |lines| > 1 {
      JoinCrlf(lines[1..]);
      assert CrTerminated(lines)[1..] == CrTerminated(lines[1..]);
      assert CrTerminated(lines)[0] == lines[0] + "\r";
    }
  }

  /** A file written with CRLF line breaks splits back into its lines,
      whatever carriage returns the lines themselves end in. */
  lemma SplitLinesOfCrlfJoin(lines: seq<string>)
    requires |lines| >= 1
    requires forall i :: 0 <= i < |lines| ==> '\n' !in lines[i]
    ensures SplitLines(Join(lines, "\r\n")) == lines
  {
    var cr := CrTerminated(lines);
    JoinCrlf(lines);
    CrTerminatedAvoidsLineFeed(lines);
    SplitOnJoin(cr, '\n');
    var split := SplitLines(Join(cr, "\n"));
    assert |split| == |lines|;
    forall i | 0 <= i < |lines|
      ensures split[i] == lines[i]
    {
      if i < |lines| - 1 {
        assert split[i] == DropCarriageReturn(cr[i]);
      }
    }
  }

  lemma CrTerminatedAvoidsLineFeed(lines: seq<string>)
    requires forall i :: 0 <= i < |lines| ==> '\n' !in lines[i]
    ensures forall i :: 0 <= i < |lines| ==> '\n' !in CrTerminated(lines)[i]
  {
    forall i | 0 <= i < |lines|
      ensures '\n' !in CrTerminated(lines)[i]
    {
      assert i < |lines| - 1 ==> CrTerminated(lines)[i] == lines[i] + "\r";
    }
  }

  /** `line.split(',').map(h => h.trim())`: quotes are not looked at, so the
      header has one cell per comma plus one. */
  function HeaderCells(line: string): (r: seq<string>)
    ensures |r| == multiset(line)[','] + 1
    ensures forall i :: 0 <= i < |r| ==> IsTrimmed(r[i])
  {
    SplitOnCharCount(line, ',');
    TrimAll(SplitOn(line, ","))
  }

  /** Trimmed header names without commas, joined with commas, are read
      back as the same header cells. */
  lemma HeaderCellsOfJoin(cells: seq<string>)
    requires |cells| >= 1
    requires forall i :: 0 <= i < |cells| ==> ',' !in cells[i] && IsTrimmed(cells[i])
    ensures HeaderCells(Join(cells, ",")) == cells
  {
    SplitOnJoin(cells, ',');
  }

  /** The headers accepted as the name column (case-insensitively). */
  predicate IsNameHeader(h: string) {
    var l := Lower(h); l == "name" || l == "fullname" || l == "full name"
  }

  /** The headers accepted as the email column (case-insensitively). */
  predicate IsEmailHeader(h: string) {
    var l := Lower(h); l == "email" || l == "e-mail" || l == "emailaddress"
  }

  /** `Array.prototype.findIndex`: the first index satisfying `p`, or -1. */
  function FindIndex(s: seq<string>, p: string -> bool): (r: int)
    ensures -1 <= r < |s|
    ensures r == -1 <==> forall i :: 0 <= i < |s| ==> !p(s[i])
    ensures r >= 0 ==> p(s[r]) && forall i :: 0 <= i < r ==> !p(s[i])
  {
    if s == [] then -1
    else if p(s[0]) then 0
    else var r := FindIndex(s[1..], p); if r == -1 then -1 else r + 1
  }

  /** Both required columns are present in the header. */
  predicate HasRequiredColumns(headers: seq<string>) {
    FindIndex(headers, IsNameHeader) != -1 && FindIndex(headers, IsEmailHeader) != -1
  }

  /** The loop of csvParser.ts lines 40-79 over the data lines: each line is
      trimmed, skipped if that leaves nothing, and otherwise turned into a row. */
  function DataRows(headers: seq<string>, lines: seq<string>): (rows: seq<Row>)
    ensures |rows| == |NonBlank(lines)| <= |lines|
  {
    if lines == [] then []
    else
      NonBlankCons(lines);
      DataRow(headers, lines[0]) + DataRows(headers, lines[1..])
  }

  /** The row of one data line, or none when the line is blank. */
  function DataRow(headers: seq<string>, line: string): (rows: seq<Row>)
    ensures IsBlank(line) ==> rows == []
    ensures !IsBlank(line) ==> rows == [BuildRow(headers, Fields(Trim(line)))]
  {
    if Trim(line) == [] then [] else [BuildRow(headers, Fields(Trim(line)))]
  }

  /** The `i`-th row is built from the `i`-th non-blank line: no non-blank
      line is skipped and the input order is kept. */
  lemma {:induction false} DataRowsAt(headers: seq<string>, lines: seq<string>, i: nat)
    requires i < |NonBlank(lines)|
    ensures DataRows(headers, lines)[i] == BuildRow(headers, Fields(Trim(NonBlank(lines)[i])))
    decreases |lines|
  {
    if IsBlank(lines[0]) {
      DataRowsSkip(headers, lines);
      NonBlankCons(lines);
      DataRowsAt(headers, lines[1..], i);
    } else if i == 0 {
      DataRowsHead(headers, lines);
    } else {
      DataRowsShift(headers, lines, i);
      NonBlankShift(lines, i);
      DataRowsAt(headers, lines[1..], i - 1);
    }
  }

  /** A blank line adds no row. */
  lemma DataRowsSkip(headers: seq<string>, lines: seq<string>)
    requires lines != [] && IsBlank(lines[0])
    ensures DataRows(headers, lines) == DataRows(headers, lines[1..])
  {
  }

  /** A non-blank first line gives the first row. */
  lemma DataRowsHead(headers: seq<string>, lines: seq<string>)
    requires lines != [] && !IsBlank(lines[0])
    ensures NonBlank(lines)[0] == lines[0]
    ensures DataRows(headers, lines)[0] == BuildRow(headers, Fields(Trim(lines[0])))
  {
    NonBlankCons(lines);
  }

  /** After a non-blank first line, the rows are those of the other lines. */
  lemma DataRowsShift(headers: seq<string>, lines: seq<string>, i: nat)
    requires lines != [] && !IsBlank(lines[0]) && 0 < i < |NonBlank(lines)|
    ensures DataRows(headers, lines)[i] == DataRows(headers, lines[1..])[i - 1]
  {
    NonBlankCons(lines);
  }

  /** After a non-blank first line, the non-blank lines are those of the
      other lines. */
  lemma NonBlankShift(lines: seq<string>, i: nat)
    requires lines != [] && !IsBlank(lines[0]) && 0 < i < |NonBlank(lines)|
    ensures NonBlank(lines)[i] == NonBlank(lines[1..])[i - 1]
  {
    NonBlankCons(lines);
  }

  /** Every row, at once. */
  lemma DataRowsPointwise(headers: seq<string>, lines: seq<string>)
    ensures forall i :: 0 <= i < |DataRows(headers, lines)| ==>
      DataRows(headers, lines)[i] == BuildRow(headers, Fields(Trim(NonBlank(lines)[i])))
  {
    forall i | 0 <= i < |DataRows(headers, lines)|
      ensures DataRows(headers, lines)[i] == BuildRow(headers, Fields(Trim(NonBlank(lines)[i])))
    {
      DataRowsAt(headers, lines, i);
    }
  }

  /** One step of the filter. */
  lemma NonBlankCons(lines: seq<string>)
    requires lines != []
    ensures IsBlank(lines[0]) ==> NonBlank(lines) == NonBlank(lines[1..])
    ensures !IsBlank(lines[0]) ==> NonBlank(lines) == [lines[0]] + NonBlank(lines[1..])
  {
  }

  /** `parseCSV(csvText)`. */
  function ParseCSV(text: string): (r: ParseResult)
    ensures |r.errors| <= 1
    ensures r.errors != [] ==> r.data == []
    ensures r.errors == [] ==> |r.data| == |NonBlank(SplitLines(text))| - 1
  {
    var lines := NonBlank(SplitLines(text));
    if |lines| == 0 then
      ParseResult([], [EmptyFileMessage])
    else
      var headers := HeaderCells(lines[0]);
      if !HasRequiredColumns(headers) then
        ParseResult([], [MissingColumnsMessage])
      else
        DataRowsOfNonBlank(headers, lines[1..]);
        ParseResult(DataRows(headers, lines[1..]), [])
  }

  /** No non-blank line is skipped by the data loop: there is one row per
      line, in order. */
  lemma DataRowsOfNonBlank(headers: seq<string>, lines: seq<string>)
    requires forall i :: 0 <= i < |lines| ==> !IsBlank(lines[i])
    ensures |DataRows(headers, lines)| == |lines|
    ensures forall i :: 0 <= i < |lines| ==>
      DataRows(headers, lines)[i] == BuildRow(headers, Fields(Trim(lines[i])))
  {
    NonBlankOfNonBlankLines(lines);
    DataRowsPointwise(headers, lines);
  }

  /** Filtering lines that are all non-blank keeps them all. */
  lemma {:induction false} NonBlankOfNonBlankLines(lines: seq<string>)
    requires forall i :: 0 <= i < |lines| ==> !IsBlank(lines[i])
    ensures NonBlank(lines) == lines
  {
    if lines != [] {
      NonBlankOfNonBlankLines(lines[1..]);
      assert lines == [lines[0]] + lines[1..];
    }
  }

  /** Text without a non-blank line is reported as empty. */
  lemma ParseEmptyText(text: string)
    requires forall i :: 0 <= i < |SplitLines(text)| ==> IsBlank(SplitLines(text)[i])
    ensures ParseCSV(text) == ParseResult([], [EmptyFileMessage])
  {
    NonBlankOfBlankLines(SplitLines(text));
  }

  lemma {:induction false} NonBlankOfBlankLines(lines: seq<string>)
    requires forall i :: 0 <= i < |lines| ==> IsBlank(lines[i])
    ensures NonBlank(lines) == []
  {
    if lines != [] {
      NonBlankOfBlankLines(lines[1..]);
    }
  }

  /** A header without a name column or without an email column yields no
      rows and the single missing-columns error. */
  lemma ParseMissingColumns(text: string)
    requires NonBlank(SplitLines(text)) != []
    requires !HasRequiredColumns(HeaderCells(NonBlank(SplitLines(text))[0]))
    ensures ParseCSV(text) == ParseResult([], [MissingColumnsMessage])
  {
  }

  /** With both columns present there is no error and one row per non-blank
      line after the header, in input order, built from that line's fields
      under the header cells. */
  lemma ParseRows(text: string)
    requires NonBlank(SplitLines(text)) != []
    requires HasRequiredColumns(HeaderCells(NonBlank(SplitLines(text))[0]))
    ensures var lines := NonBlank(SplitLines(text));
      var headers := HeaderCells(lines[0]);
      && ParseCSV(text).errors == []
      && |ParseCSV(text).data| == |lines| - 1
      && forall i :: 0 <= i < |lines| - 1 ==>
           ParseCSV(text).data[i] == BuildRow(headers, Fields(Trim(lines[i + 1])))
  {
    var lines := NonBlank(SplitLines(text));
    ParseWithColumns(text);
    DataRowsAfterHeader(HeaderCells(lines[0]), lines);
  }

  /** With both columns present the data loop runs over the lines after the header. */
  lemma ParseWithColumns(text: string)
    requires NonBlank(SplitLines(text)) != []
    requires HasRequiredColumns(HeaderCells(NonBlank(SplitLines(text))[0]))
    ensures var lines := NonBlank(SplitLines(text));
      ParseCSV(text) == ParseResult(DataRows(HeaderCells(lines[0]), lines[1..]), [])
  {
  }

  /** The rows of the lines after a header, when no line is blank. */
  lemma DataRowsAfterHeader(headers: seq<string>, lines: seq<string>)
    requires lines != [] && forall i :: 0 <= i < |lines| ==> !IsBlank(lines[i])
    ensures var data := DataRows(headers, lines[1..]);
      && |data| == |lines| - 1
      && forall i :: 0 <= i < |lines| - 1 ==> data[i] == BuildRow(headers, Fields(Trim(lines[i + 1])))
  {
    var body := lines[1..];
    assert forall i :: 0 <= i < |body| ==> body[i] == lines[i + 1];
    DataRowsOfNonBlank(headers, body);
  }

  /** A row built from trimmed, quote-free fields holds only such values. */
  lemma BuildRowClean(headers: seq<string>, values: seq<string>)
    requires forall i :: 0 <= i < |values| ==> '"' !in values[i] && IsTrimmed(values[i])
    ensures forall e :: e in BuildRow(headers, values) ==> '"' !in e.value && IsTrimmed(e.value)
  {
    BuildRowEntries(headers, values);
  }

  /** Every value in every parsed row is trimmed and contains no quote. */
  lemma ParsedValuesClean(text: string)
    ensures forall i, e :: 0 <= i < |ParseCSV(text).data| && e in ParseCSV(text).data[i] ==>
      '"' !in e.value && IsTrimmed(e.value)
  {
    var res := ParseCSV(text);
    var lines := NonBlank(SplitLines(text));
    if res.errors == [] {
      var headers := HeaderCells(lines[0]);
      ParseRows(text);
      forall i | 0 <= i < |res.data|
        ensures forall e :: e in res.data[i] ==> '"' !in e.value && IsTrimmed(e.value)
      {
        BuildRowClean(headers, Fields(Trim(lines[i + 1])));
      }
    }
  }

  /** Every parsed row has exactly the header cells as its keys. */
  lemma ParsedRowKeys(text: string)
    requires NonBlank(SplitLines(text)) != []
    ensures forall r, k :: r in ParseCSV(text).data ==>
      (k in Keys(r) <==> k in HeaderCells(NonBlank(SplitLines(text))[0]))
  {
    var lines := NonBlank(SplitLines(text));
    var headers := HeaderCells(lines[0]);
    if HasRequiredColumns(headers) {
      ParseWithColumns(text);
      DataRowsKeys(headers, lines[1..]);
    }
  }

  /** Every row of the data loop is keyed by the header cells. */
  lemma DataRowsKeys(headers: seq<string>, lines: seq<string>)
    ensures forall r :: r in DataRows(headers, lines) ==> Keys(r) == FirstOccurrences(headers)
  {
    var rows := DataRows(headers, lines);
    DataRowsPointwise(headers, lines);
    forall r | r in rows
      ensures Keys(r) == FirstOccurrences(headers)
    {
      var i :| 0 <= i < |rows| && rows[i] == r;
      assert r == BuildRow(headers, Fields(Trim(NonBlank(lines)[i])));
    }
  }
}
