/** The flat-file codec: `toCSV` writes rows of key/value objects, quoting a
    cell only when it holds a double quote, a comma or a newline; `parseCSV`
    reads text line by line with a character-level state machine that tracks
    whether it is inside quotes. */
module Csv {

  // ---------------------------------------------------------------------------
  // Joining and splitting

  /** `parts.join(sep)`. */
  function Join(sep: string, parts: seq<string>): string
  {
    if |parts| == 0 then ""
    else if |parts| == 1 then parts[0]
    else parts[0] + sep + Join(sep, parts[1..])
  }

  /** `s.split(sep)` for a one-character separator: the pieces between the
      separators, always at least one. */
  function SplitOn(s: string, sep: char): (parts: seq<string>)
    ensures |parts| >= 1
    ensures forall i :: 0 <= i < |parts| ==> sep !in parts[i]
    decreases |s|
  {
    if s == [] then [""]
    else
      var rest := SplitOn(s[1..], sep);
      if s[0] == sep then [""] + rest else [[s[0]] + rest[0]] + rest[1..]
  }

  lemma JoinPrepend(sep: string, a: string, parts: seq<string>)
    requires |parts| >= 1
    ensures Join(sep, [a + parts[0]] + parts[1..]) == a + Join(sep, parts)
  {
    if |parts| > 1 {
      assert ([a + parts[0]] + parts[1..])[1..] == parts[1..];
    }
  }

  /** Joining the pieces of a split with the separator gives back the text. */
  lemma {:induction false} JoinSplit(s: string, c: char)
    ensures Join([c], SplitOn(s, c)) == s
  {
    if s != [] {
      var rest := SplitOn(s[1..], c);
      JoinSplit(s[1..], c);
      if s[0] == c {
        assert ([""] + rest)[1..] == rest;
      } else {
        JoinPrepend([c], [s[0]], rest);
      }
    }
  }

  lemma {:induction false} SplitPrefix(a: string, t: string, c: char)
    requires c !in a
    ensures SplitOn(a + t, c) == [a + SplitOn(t, c)[0]] + SplitOn(t, c)[1..]
  {
    if a != [] {
      assert a[0] in a;
      SplitPrefix(a[1..], t, c);
      SplitPrefixStep(a, t, c, SplitOn(t, c), SplitOn(a[1..] + t, c));
    } else {
      var u := SplitOn(t, c);
      assert a + t == t && a + u[0] == u[0];
      assert [u[0]] + u[1..] == u;
    }
  }

  lemma SplitPrefixStep(a: string, t: string, c: char, u: seq<string>, r: seq<string>)
    requires a != [] && a[0] != c && u == SplitOn(t, c) && r == SplitOn(a[1..] + t, c)
    requires r == [a[1..] + u[0]] + u[1..]
    ensures SplitOn(a + t, c) == [a + u[0]] + u[1..]
  {
    assert (a + t)[1..] == a[1..] + t;
    assert SplitOn(a + t, c) == [[a[0]] + r[0]] + r[1..];
    assert r[0] == a[1..] + u[0] && r[1..] == u[1..];
    assert [a[0]] + (a[1..] + u[0]) == a + u[0];
  }

  /** Splitting a join gives back the pieces when no piece holds the
      separator. */
  lemma {:induction false} SplitJoin(parts: seq<string>, c: char)
    requires |parts| >= 1
    requires forall i :: 0 <= i < |parts| ==> c !in parts[i]
    ensures SplitOn(Join([c], parts), c) == parts
  {
    if |parts| == 1 {
      SplitPrefix(parts[0], "", c);
      assert parts[0] + "" == parts[0] && SplitOn("", c) == [""];
      assert [parts[0]] == parts;
    } else {
      var tail := Join([c], parts[1..]);
      SplitJoin(parts[1..], c);
      assert Join([c], parts) == parts[0] + ([c] + tail);
      SplitPrefix(parts[0], [c] + tail, c);
      assert ([c] + tail)[1..] == tail;
      var v := SplitOn([c] + tail, c);
      assert v == [""] + parts[1..];
      assert parts[0] + v[0] == parts[0];
      assert [parts[0]] + v[1..] == parts;
    }
  }

  lemma {:induction false} JoinAvoids(sep: string, parts: seq<string>, c: char)
    requires c !in sep
    requires forall i :: 0 <= i < |parts| ==> c !in parts[i]
    ensures c !in Join(sep, parts)
  {
    if |parts| > 1 {
      JoinAvoids(sep, parts[1..], c);
    }
  }

  // ---------------------------------------------------------------------------
  // Writing: `toCSV`

  /** The test `/[",\n]/` of `escape`. */
  predicate NeedsQuotes(s: string)
  {
    '"' in s || ',' in s || '\n' in s
  }

  /** `str.replace(/"/g, '""')`. */
  function DoubleQuotes(s: string): (r: string)
    ensures |r| >= |s|
    ensures '"' !in s ==> r == s
  {
    if s == [] then []
    else
      assert '"' !in s ==> '"' !in s[1..];
      (if s[0] == '"' then "\"\"" else [s[0]]) + DoubleQuotes(s[1..])
  }

  /** `escape`: a cell is quoted, with its quotes doubled, only when it holds
      a double quote, a comma or a newline. */
  function Escape(s: string): (r: string)
    ensures !NeedsQuotes(s) ==> r == s
    ensures NeedsQuotes(s) ==> |r| >= |s| + 2 && r[0] == '"' && r[|r| - 1] == '"'
  {
    if NeedsQuotes(s) then "\"" + DoubleQuotes(s) + "\"" else s
  }

  function EscapeAll(cells: seq<string>): (r: seq<string>)
    ensures |r| == |cells|
  {
    seq(|cells|, i requires 0 <= i < |cells| => Escape(cells[i]))
  }

  /** One data line of `toCSV`: the escaped cells joined with commas. */
  function EncodeLine(cells: seq<string>): string
  {
    Join(",", EscapeAll(cells))
  }

  /** A JavaScript object as its list of (key, value) entries in key order;
      the values are the strings `String(value)` gives. The keys of a
      JavaScript object are distinct; this type does not enforce that, and
      with a repeated key `Get` reads the first entry. */
  type Object = seq<(string, string)>

  /** `Object.keys(o)`. */
  function Keys(o: Object): (ks: seq<string>)
    ensures |ks| == |o|
  {
    seq(|o|, i requires 0 <= i < |o| => o[i].0)
  }

  /** `String(o[key] ?? "")`: the value stored under `key`, or "" when the
      object has no such key. */
  function Get(o: Object, key: string): string
  {
    if o == [] then "" else if o[0].0 == key then o[0].1 else Get(o[1..], key)
  }

  /** The cells of one row under the given headers. */
  function RowCells(o: Object, headers: seq<string>): (cells: seq<string>)
    ensures |cells| == |headers|
  {
    seq(|headers|, k requires 0 <= k < |headers| => Get(o, headers[k]))
  }

  /** The lines `toCSV` writes: the unescaped header line taken from the
      keys of the first row, then one escaped line per row. */
  function CsvLines(rows: seq<Object>): (lines: seq<string>)
    requires |rows| > 0
    ensures |lines| == |rows| + 1
  {
    var headers := Keys(rows[0]);
    [Join(",", headers)] + seq(|rows|, i requires 0 <= i < |rows| => EncodeLine(RowCells(rows[i], headers)))
  }

  /** `toCSV`: the empty text for no rows, otherwise the lines joined with
      newlines. */
  function ToCsv(rows: seq<Object>): (text: string)
    ensures text == "" <==> |rows| == 0
    ensures |rows| > 0 ==> '\n' in text
  {
    if |rows| == 0 then "" else
      var lines := CsvLines(rows);
      assert Join("\n", lines) == lines[0] + "\n" + Join("\n", lines[1..]);
      assert Join("\n", lines)[|lines[0]|] == '\n';
      Join("\n", lines)
  }

  // ---------------------------------------------------------------------------
  // Reading: `parseCSV`

  /** The characters JavaScript's `trim` removes: white space and line
      terminators. */
  predicate IsJsSpace(c: char)
  {
    c == ' ' || c == '\t' || c == '\n' || c == '\r' || c == '\U{000B}' || c == '\U{000C}'
    || c == '\U{00A0}' || c == '\U{FEFF}' || c == '\U{1680}' || ('\U{2000}' <= c <= '\U{200A}')
    || c == '\U{2028}' || c == '\U{2029}' || c == '\U{202F}' || c == '\U{205F}' || c == '\U{3000}'
  }

  /** Removes the leading white space. */
  function TrimStart(s: string): (r: string)
    ensures |r| <= |s| && r == s[|s| - |r|..]
    ensures forall k :: 0 <= k < |s| - |r| ==> IsJsSpace(s[k])
    ensures |r| > 0 ==> !IsJsSpace(r[0])
  {
    if s != [] && IsJsSpace(s[0]) then TrimStart(s[1..]) else s
  }

  /** Removes the trailing white space. */
  function TrimEnd(s: string): (r: string)
    ensures |r| <= |s| && r == s[..|r|]
    ensures forall k :: |r| <= k < |s| ==> IsJsSpace(s[k])
    ensures |r| > 0 ==> !IsJsSpace(r[|r| - 1])
  {
    if s != [] && IsJsSpace(s[|s| - 1]) then TrimEnd(s[..|s| - 1]) else s
  }

  /** `r` is the slice of `s` at position `i`, with only white space before
      and after it. */
  predicate SpacesAround(s: string, r: string, i: int)
  {
    0 <= i <= |s| - |r| && r == s[i..i + |r|] &&
    (forall k :: 0 <= k < i ==> IsJsSpace(s[k])) &&
    (forall k :: i + |r| <= k < |s| ==> IsJsSpace(s[k]))
  }

  /** `s.trim()`. */
  function Trim(s: string): (r: string)
    ensures |r| > 0 ==> !IsJsSpace(r[0]) && !IsJsSpace(r[|r| - 1])
    ensures exists i :: SpacesAround(s, r, i)
  {
    var t := TrimStart(s);
    var u := TrimEnd(t);
    TrimmedSlice(s, t, u);
    u
  }

  /** What the two trims leave is a slice of `s` with only white space
      before and after it. */
  lemma TrimmedSlice(s: string, t: string, r: string)
    requires |t| <= |s| && t == s[|s| - |t|..] && forall k :: 0 <= k < |s| - |t| ==> IsJsSpace(s[k])
    requires |r| <= |t| && r == t[..|r|] && forall k :: |r| <= k < |t| ==> IsJsSpace(t[k])
    ensures SpacesAround(s, r, |s| - |t|)
  {
    var i := |s| - |t|;
    assert r == s[i..i + |r|];
    forall k | i + |r| <= k < |s|
      ensures IsJsSpace(s[k])
    {
      assert s[k] == t[k - i];
    }
  }

  /** Removes one carriage return at the end of a line. */
  function DropCR(line: string): (r: string)
    ensures line == r || line == r + "\r"
    ensures |line| > 0 && line[|line| - 1] == '\r' ==> line == r + "\r"
  {
    if |line| > 0 && line[|line| - 1] == '\r' then line[..|line| - 1] else line
  }

  /** `text.split(/\r?\n/)`: split at every newline, dropping a carriage
      return just before it. */
  function SplitLines(text: string): (lines: seq<string>)
    ensures |lines| >= 1 && |lines| == |SplitOn(text, '\n')|
    ensures forall i :: 0 <= i < |lines| ==> '\n' !in lines[i]
  {
    var parts := SplitOn(text, '\n');
    seq(|parts|, i requires 0 <= i < |parts| => if i < |parts| - 1 then DropCR(parts[i]) else parts[i])
  }

  /** The lines of the trimmed text. */
  function Lines(text: string): (lines: seq<string>)
    ensures |lines| >= 1
    ensures forall i :: 0 <= i < |lines| ==> '\n' !in lines[i]
  {
    SplitLines(Trim(text))
  }

  /** The header names: the first line split at every comma (quotes are not
      interpreted here), each trimmed. */
  function HeaderCells(line: string): (headers: seq<string>)
    ensures |headers| >= 1 && |headers| == |SplitOn(line, ',')|
    ensures forall i :: 0 <= i < |headers| ==> headers[i] == Trim(SplitOn(line, ',')[i])
  {
    var parts := SplitOn(line, ',');
    seq(|parts|, i requires 0 <= i < |parts| => Trim(parts[i]))
  }

  /** The header line `headers.join(",")` of `toCSV` reads back as the same
      headers when no header holds a comma or starts or ends with white
      space. */
  lemma HeaderCellsOfJoin(headers: seq<string>)
    requires |headers| >= 1
    requires forall i :: 0 <= i < |headers| ==> ',' !in headers[i] && Trim(headers[i]) == headers[i]
    ensures HeaderCells(Join(",", headers)) == headers
  {
    SplitJoin(headers, ',');
    assert "," == [','];
  }

  /** The state machine of one data line. `inQ` says whether the scan is
      inside quotes, `cur` is the cell being read and `row` the cells already
      finished. A doubled quote inside quotes stands for one quote; any other
      quote toggles `inQ`; a comma outside quotes ends a cell. */
  function Scan(s: string, inQ: bool, cur: string, row: seq<string>): (cells: seq<string>)
    ensures |cells| > |row| && cells[..|row|] == row
    decreases |s|
  {
    if s == [] then row + [cur]
    else if s[0] == '"' then
      if inQ && |s| > 1 && s[1] == '"' then Scan(s[2..], inQ, cur + "\"", row)
      else Scan(s[1..], !inQ, cur, row)
    else if s[0] == ',' && !inQ then Scan(s[1..], inQ, "", row + [cur])
    else Scan(s[1..], inQ, cur + [s[0]], row)
  }

  /** The cells of one data line; never fewer than one. */
  function Fields(line: string): (cells: seq<string>)
    ensures |cells| >= 1
  {
    Scan(line, false, "", [])
  }

  /** The cell at `idx`, or "" beyond the end of the row (`row[idx] ?? ""`). */
  function Cell(cells: seq<string>, idx: nat): string
  {
    if idx < |cells| then cells[idx] else ""
  }

  /** The record of one data line: each header, in order, is assigned the
      cell at its position, so a later duplicate header overwrites an
      earlier one. */
  function RecordOf(headers: seq<string>, cells: seq<string>): map<string, string>
  {
    if headers == [] then map[]
    else RecordOf(headers[..|headers| - 1], cells)[headers[|headers| - 1] := Cell(cells, |headers| - 1)]
  }

  /** The records `parseCSV` returns: one per line after the header line. */
  function ParsedRecords(text: string): (records: seq<map<string, string>>)
    ensures |records| == |Lines(text)| - 1
  {
    RecordsOfLines(Lines(text))
  }

  /** One record per line after the header line. */
  function RecordsOfLines(lines: seq<string>): (records: seq<map<string, string>>)
    requires |lines| >= 1
    ensures |records| == |lines| - 1
  {
    var headers := HeaderCells(lines[0]);
    seq(|lines| - 1, i requires 0 <= i < |lines| - 1 => RecordOf(headers, Fields(lines[i + 1])))
  }

  /** The inner loop of `parseCSV`: one pass over the characters of a line. */
  method SplitRow(line: string) returns (row: seq<string>)
    ensures row == Fields(line)
  {
    row := [];
    var cur: string := "";
    var inQ := false;
    var j := 0;
    while j < |line|
      invariant 0 <= j <= |line|
      invariant Scan(line[j..], inQ, cur, row) == Fields(line)
    {
      var c := line[j];
      assert line[j..][1..] == line[j + 1..];
      if c == '"' {
        if inQ && j + 1 < |line| && line[j + 1] == '"' {
          assert line[j..][2..] == line[j + 2..];
          cur := cur + "\"";
          j := j + 1;
        } else {
          inQ := !inQ;
        }
      } else if c == ',' && !inQ {
        row := row + [cur];
        cur := "";
      } else {
        cur := cur + [c];
      }
      j := j + 1;
    }
    row := row + [cur];
  }

  /** `headers.forEach((h, idx) => (obj[h] = row[idx] ?? ""))`. */
  method BuildRecord(headers: seq<string>, row: seq<string>) returns (obj: map<string, string>)
    ensures obj == RecordOf(headers, row)
  {
    obj := map[];
    var idx := 0;
    while idx < |headers|
      invariant 0 <= idx <= |headers|
      invariant obj == RecordOf(headers[..idx], row)
    {
      assert headers[..idx + 1][..idx] == headers[..idx];
      obj := obj[headers[idx] := if idx < |row| then row[idx] else ""];
      idx := idx + 1;
    }
    assert headers[..|headers|] == headers;
  }

  /** `parseCSV`: the header line gives the keys; every later line is split
      into cells and turned into a record. */
  method ParseCsv(text: string) returns (rows: seq<map<string, string>>)
    ensures rows == ParsedRecords(text)
  {
    var lines := Lines(text);
    var headers := HeaderCells(lines[0]);
    ghost var records := RecordsOfLines(lines);
    rows := [];
    var i := 1;
    while i < |lines|
      invariant 1 <= i <= |lines|
      invariant rows == records[..i - 1]
    {
      var row := SplitRow(lines[i]);
      var obj := BuildRecord(headers, row);
      assert records[i - 1] == obj;
      PrefixStep(records, rows, i - 1, obj);
      rows := rows + [obj];
      i := i + 1;
    }
    assert records[..|lines| - 1] == records;
  }

  lemma PrefixStep<T>(all: seq<T>, done: seq<T>, k: nat, x: T)
    requires k < |all| && done == all[..k] && all[k] == x
    ensures done + [x] == all[..k + 1]
  {
  }

  // ---------------------------------------------------------------------------
  // Properties of the reader

  /** `headers[k]` is not repeated later in the header line. */
  predicate LastOccurrence(headers: seq<string>, k: nat)
    requires k < |headers|
  {
    forall k' :: k < k' < |headers| ==> headers[k'] != headers[k]
  }

  /** A record has exactly the header names as keys. */
  lemma {:induction false} RecordKeys(headers: seq<string>, cells: seq<string>)
    ensures RecordOf(headers, cells).Keys == set h | h in headers
  {
    if headers != [] {
      var n := |headers| - 1;
      RecordKeys(headers[..n], cells);
      assert headers == headers[..n] + [headers[n]];
    }
  }

  /** The value of a header is the cell at its last position, or "" when the
      line is too short. */
  lemma {:induction false} RecordValues(headers: seq<string>, cells: seq<string>, k: nat)
    requires k < |headers| && LastOccurrence(headers, k)
    ensures headers[k] in RecordOf(headers, cells)
    ensures RecordOf(headers, cells)[headers[k]] == Cell(cells, k)
  {
    var n := |headers| - 1;
    if k < n {
      assert LastOccurrence(headers[..n], k);
      RecordValues(headers[..n], cells, k);
    }
  }

  /** Cells beyond the last header are dropped. */
  lemma {:induction false} ExtraCellsIgnored(headers: seq<string>, cells: seq<string>, extra: seq<string>)
    requires |cells| >= |headers|
    ensures RecordOf(headers, cells + extra) == RecordOf(headers, cells)
  {
    if headers != [] {
      ExtraCellsIgnored(headers[..|headers| - 1], cells, extra);
      assert (cells + extra)[|headers| - 1] == cells[|headers| - 1];
    }
  }

  /** A quote that is never closed is not an error: the rest of the line is
      read as one cell. */
  lemma UnbalancedQuoteAccepted()
    ensures Fields("\"a,b") == ["a,b"]
  {
    assert "a," + "b" == "a,b" && "a" + "," == "a," && "" + "a" == "a";
    assert "\"a,b"[1..] == "a,b" && "a,b"[1..] == ",b" && ",b"[1..] == "b" && "b"[1..] == "";
    assert Scan("", true, "a,b", []) == ["a,b"];
    assert Scan("b", true, "a,", []) == ["a,b"];
    assert Scan(",b", true, "a", []) == ["a,b"];
    assert Scan("a,b", true, "", []) == ["a,b"];
  }

  // ---------------------------------------------------------------------------
  // The per-line round trip

  lemma {:induction false} ScanPlain(f: string, s: string, cur: string, row: seq<string>)
    requires !NeedsQuotes(f)
    ensures Scan(f + s, false, cur, row) == Scan(s, false, cur + f, row)
  {
    if f != [] {
      assert (f + s)[1..] == f[1..] + s;
      assert f[0] in f && (f + s)[0] == f[0];
      assert !NeedsQuotes(f[1..]) by {
        assert forall x :: x in f[1..] ==> x in f;
      }
      ScanPlain(f[1..], s, cur + [f[0]], row);
      assert cur + [f[0]] + f[1..] == cur + f;
    } else {
      assert f + s == s && cur + f == cur;
    }
  }

  lemma {:induction false} ScanQuotedBody(f: string, s: string, cur: string, row: seq<string>)
    requires s == [] || s[0] != '"'
    ensures Scan(DoubleQuotes(f) + "\"" + s, true, cur, row) == Scan(s, false, cur + f, row)
  {
    var t := DoubleQuotes(f) + "\"" + s;
    if f == [] {
      assert t == "\"" + s;
      assert t[1..] == s && cur + f == cur;
    } else {
      var t' := DoubleQuotes(f[1..]) + "\"" + s;
      ScanQuotedBody(f[1..], s, cur + [f[0]], row);
      assert cur + [f[0]] + f[1..] == cur + f;
      DoubleQuotesCons(f, s);
      if f[0] == '"' {
        QuotedQuoteStep(t', cur, row);
      } else {
        QuotedCharStep(f[0], t', cur, row);
      }
    }
  }

  lemma DoubleQuotesCons(f: string, s: string)
    requires f != []
    ensures DoubleQuotes(f) + "\"" + s ==
      (if f[0] == '"' then "\"\"" else [f[0]]) + (DoubleQuotes(f[1..]) + "\"" + s)
  {
  }

  lemma QuotedQuoteStep(t: string, cur: string, row: seq<string>)
    ensures Scan("\"\"" + t, true, cur, row) == Scan(t, true, cur + "\"", row)
  {
    var u := "\"\"" + t;
    assert u[0] == '"' && u[1] == '"' && u[2..] == t;
  }

  lemma QuotedCharStep(x: char, t: string, cur: string, row: seq<string>)
    requires x != '"'
    ensures Scan([x] + t, true, cur, row) == Scan(t, true, cur + [x], row)
  {
    var u := [x] + t;
    assert u[0] == x && u[1..] == t;
  }

  /** Reading an escaped cell gives back the cell, whatever follows it up to
      the next comma. */
  lemma ScanEscaped(f: string, s: string, cur: string, row: seq<string>)
    requires s == [] || s[0] == ','
    ensures Scan(Escape(f) + s, false, cur, row) == Scan(s, false, cur + f, row)
  {
    if NeedsQuotes(f) {
      var t := DoubleQuotes(f) + "\"" + s;
      assert Escape(f) + s == "\"" + t;
      assert ("\"" + t)[1..] == t;
      ScanQuotedBody(f, s, cur, row);
    } else {
      ScanPlain(f, s, cur, row);
    }
  }

  lemma {:induction false} ScanCells(cells: seq<string>, row: seq<string>)
    requires |cells| >= 1
    ensures Scan(EncodeLine(cells), false, "", row) == row + cells
  {
    if |cells| == 1 {
      ScanLastCell(cells[0], row);
      assert [cells[0]] == cells;
    } else {
      ScanFirstCell(cells, row);
      ScanCells(cells[1..], row + [cells[0]]);
      assert row + [cells[0]] + cells[1..] == row + cells;
    }
  }

  lemma ScanLastCell(c: string, row: seq<string>)
    ensures Scan(EncodeLine([c]), false, "", row) == row + [c]
  {
    ScanEscaped(c, "", "", row);
    assert EncodeLine([c]) == Escape(c) + "";
    assert "" + c == c;
  }

  /** Reading the first cell of a line of two or more leaves the line of the
      rest, with that cell stored. */
  lemma ScanFirstCell(cells: seq<string>, row: seq<string>)
    requires |cells| >= 2
    ensures Scan(EncodeLine(cells), false, "", row) == Scan(EncodeLine(cells[1..]), false, "", row + [cells[0]])
  {
    var rest := EncodeLine(cells[1..]);
    EncodeLineCons(cells);
    ScanEscaped(cells[0], "," + rest, "", row);
    assert ("," + rest)[1..] == rest && "" + cells[0] == cells[0];
  }

  /** A line of two or more cells is the first cell, escaped, a comma and
      the line of the rest. */
  lemma EncodeLineCons(cells: seq<string>)
    requires |cells| >= 2
    ensures EncodeLine(cells) == Escape(cells[0]) + ("," + EncodeLine(cells[1..]))
  {
    var e := EscapeAll(cells);
    assert e[1..] == EscapeAll(cells[1..]);
    assert e[0] == Escape(cells[0]);
    assert EncodeLine(cells) == e[0] + "," + EncodeLine(cells[1..]);
  }

  /** Per-line round trip: reading a line written by `toCSV` gives back
      exactly its cells. */
  lemma FieldsOfEncodedLine(cells: seq<string>)
    requires |cells| >= 1
    ensures Fields(EncodeLine(cells)) == cells
  {
    ScanCells(cells, []);
  }

  lemma {:induction false} DoubleQuotesAvoids(s: string, c: char)
    requires c != '"' && c !in s
    ensures c !in DoubleQuotes(s)
  {
    if s != [] {
      assert s[0] in s;
      DoubleQuotesAvoids(s[1..], c);
    }
  }

  /** A line written from cells without newlines holds no newline. */
  lemma EncodedLineHasNoNewline(cells: seq<string>)
    requires forall i :: 0 <= i < |cells| ==> '\n' !in cells[i]
    ensures '\n' !in EncodeLine(cells)
  {
    forall i | 0 <= i < |cells|
      ensures '\n' !in EscapeAll(cells)[i]
    {
      DoubleQuotesAvoids(cells[i], '\n');
    }
    JoinAvoids(",", EscapeAll(cells), '\n');
  }

  /** No header name and no cell holds a newline. */
  predicate NoNewlines(rows: seq<Object>)
  {
    forall i, j :: 0 <= i < |rows| && 0 <= j < |rows[i]| ==>
      '\n' !in rows[i][j].0 && '\n' !in rows[i][j].1
  }

  lemma {:induction false} GetAvoids(o: Object, key: string, c: char)
    requires forall j :: 0 <= j < |o| ==> c !in o[j].1
    ensures c !in Get(o, key)
  {
    if o != [] && o[0].0 != key {
      GetAvoids(o[1..], key, c);
    }
  }

  /** The text `toCSV` writes splits back into its lines, the header line
      splits back into the header names when they hold no comma, and every
      data line reads back as that row's cells under the headers. */
  lemma {:induction false} ToCsvRoundTrip(rows: seq<Object>)
    requires |rows| > 0 && |rows[0]| >= 1 && NoNewlines(rows)
    ensures SplitOn(ToCsv(rows), '\n') == CsvLines(rows)
    ensures (forall j :: 0 <= j < |rows[0]| ==> ',' !in rows[0][j].0) ==>
      SplitOn(CsvLines(rows)[0], ',') == Keys(rows[0])
    ensures forall i :: 0 <= i < |rows| ==>
      Fields(CsvLines(rows)[i + 1]) == RowCells(rows[i], Keys(rows[0]))
  {
    var headers := Keys(rows[0]);
    var lines := CsvLines(rows);
    DataLinesRoundTrip(rows, headers, lines);
    TextSplitsIntoLines(rows, headers, lines);
    HeaderLineRoundTrip(rows, headers, lines);
  }

  lemma HeaderLineRoundTrip(rows: seq<Object>, headers: seq<string>, lines: seq<string>)
    requires |rows| > 0 && |headers| >= 1 && headers == Keys(rows[0]) && lines == CsvLines(rows)
    ensures (forall j :: 0 <= j < |rows[0]| ==> ',' !in rows[0][j].0) ==>
      SplitOn(lines[0], ',') == headers
  {
    if forall j :: 0 <= j < |rows[0]| ==> ',' !in rows[0][j].0 {
      SplitJoin(headers, ',');
    }
  }

  lemma TextSplitsIntoLines(rows: seq<Object>, headers: seq<string>, lines: seq<string>)
    requires |rows| > 0 && headers == Keys(rows[0]) && lines == CsvLines(rows) && NoNewlines(rows)
    requires forall i :: 1 <= i < |lines| ==> '\n' !in lines[i]
    ensures SplitOn(ToCsv(rows), '\n') == lines
  {
    JoinAvoids(",", headers, '\n');
    SplitJoin(lines, '\n');
  }

  /** Every data line `toCSV` writes holds no newline and reads back as its
      row's cells. */
  lemma {:induction false} DataLinesRoundTrip(rows: seq<Object>, headers: seq<string>, lines: seq<string>)
    requires |rows| > 0 && |headers| >= 1 && NoNewlines(rows)
    requires headers == Keys(rows[0]) && lines == CsvLines(rows)
    ensures forall i :: 1 <= i < |lines| ==> '\n' !in lines[i]
    ensures forall i :: 0 <= i < |rows| ==> Fields(lines[i + 1]) == RowCells(rows[i], headers)
  {
    forall i | 1 <= i < |lines|
      ensures '\n' !in lines[i]
      ensures Fields(lines[i]) == RowCells(rows[i - 1], headers)
    {
      assert lines[i] == EncodeLine(RowCells(rows[i - 1], headers));
      EncodedRowRoundTrip(rows[i - 1], headers);
    }
    forall i | 0 <= i < |rows|
      ensures Fields(lines[i + 1]) == RowCells(rows[i], headers)
    {
      assert rows[i] == rows[(i + 1) - 1];
    }
  }

  // ---------------------------------------------------------------------------
  // Reading back what `toCSV` writes, through the reader's own line split

  /** `s` ends in a carriage return, which the line split of the reader
      drops. */
  predicate EndsInCR(s: string)
  {
    |s| > 0 && s[|s| - 1] == '\r'
  }

  /** No cell value ends in a carriage return. */
  predicate NoTrailingCR(rows: seq<Object>)
  {
    forall i, j :: 0 <= i < |rows| && 0 <= j < |rows[i]| ==> !EndsInCR(rows[i][j].1)
  }

  lemma {:induction false} JoinNoCR(sep: string, parts: seq<string>)
    requires |sep| > 0 && sep[|sep| - 1] != '\r'
    requires forall i :: 0 <= i < |parts| ==> !EndsInCR(parts[i])
    ensures !EndsInCR(Join(sep, parts))
  {
    if |parts| > 1 {
      JoinNoCR(sep, parts[1..]);
      var t := Join(sep, parts[1..]);
      var j := parts[0] + sep + t;
      if |t| > 0 {
        assert j[|j| - 1] == t[|t| - 1];
      } else {
        assert j[|j| - 1] == sep[|sep| - 1];
      }
    }
  }

  lemma {:induction false} GetNoCR(o: Object, key: string)
    requires forall j :: 0 <= j < |o| ==> !EndsInCR(o[j].1)
    ensures !EndsInCR(Get(o, key))
  {
    if o != [] && o[0].0 != key {
      GetNoCR(o[1..], key);
    }
  }

  /** A data line ends in a carriage return only when its last value does. */
  lemma EncodedLineNoCR(o: Object, headers: seq<string>)
    requires forall j :: 0 <= j < |o| ==> !EndsInCR(o[j].1)
    ensures !EndsInCR(EncodeLine(RowCells(o, headers)))
  {
    var cells := RowCells(o, headers);
    forall k | 0 <= k < |cells|
      ensures !EndsInCR(EscapeAll(cells)[k])
    {
      GetNoCR(o, headers[k]);
    }
    JoinNoCR(",", EscapeAll(cells));
  }

  /** A text without white space at either end is its own trim. */
  lemma TrimKeeps(s: string)
    requires |s| > 0 && !IsJsSpace(s[0]) && !IsJsSpace(s[|s| - 1])
    ensures Trim(s) == s
  {
    assert TrimStart(s) == s;
    assert TrimEnd(s) == s;
  }

  /** The reader's line split (trim, then split at `\r?\n`) gives back the
      lines `toCSV` writes, when no header or value holds a newline, no value
      and no header of the first row ends in a carriage return, and the text
      has no white space at either end. */
  lemma {:induction false} ToCsvLines(rows: seq<Object>)
    requires |rows| > 0 && |rows[0]| >= 1 && NoNewlines(rows) && NoTrailingCR(rows)
    requires forall j :: 0 <= j < |rows[0]| ==> !EndsInCR(rows[0][j].0)
    requires var text := ToCsv(rows); !IsJsSpace(text[0]) && !IsJsSpace(text[|text| - 1])
    ensures Lines(ToCsv(rows)) == CsvLines(rows)
  {
    var headers := Keys(rows[0]);
    var lines := CsvLines(rows);
    DataLinesRoundTrip(rows, headers, lines);
    JoinAvoids(",", headers, '\n');
    JoinNoCR(",", headers);
    forall i | 1 <= i < |lines|
      ensures !EndsInCR(lines[i])
    {
      assert lines[i] == EncodeLine(RowCells(rows[i - 1], headers));
      EncodedLineNoCR(rows[i - 1], headers);
    }
    TrimKeeps(ToCsv(rows));
    SplitLinesOfJoin(lines);
  }

  /** `parseCSV(toCSV(rows))`: under the conditions of `ToCsvLines`, and with
      header names that hold no comma and no white space at either end, the
      reader gives one record per row, holding that row's values under the
      first row's keys. */
  lemma {:induction false} ToCsvParsedRecords(rows: seq<Object>)
    requires |rows| > 0 && |rows[0]| >= 1 && NoNewlines(rows) && NoTrailingCR(rows)
    requires forall j :: 0 <= j < |rows[0]| ==>
      ',' !in rows[0][j].0 && Trim(rows[0][j].0) == rows[0][j].0
    requires var text := ToCsv(rows); !IsJsSpace(text[0]) && !IsJsSpace(text[|text| - 1])
    ensures |ParsedRecords(ToCsv(rows))| == |rows|
    ensures forall i :: 0 <= i < |rows| ==>
      ParsedRecords(ToCsv(rows))[i] == RecordOf(Keys(rows[0]), RowCells(rows[i], Keys(rows[0])))
  {
    var headers := Keys(rows[0]);
    forall j | 0 <= j < |rows[0]|
      ensures !EndsInCR(rows[0][j].0)
    {
      assert IsJsSpace('\r');
    }
    ToCsvLines(rows);
    DataLinesRoundTrip(rows, headers, CsvLines(rows));
    HeaderCellsOfJoin(headers);
    RecordsOfCsvLines(rows, headers, CsvLines(rows));
  }

  lemma RecordsOfCsvLines(rows: seq<Object>, headers: seq<string>, lines: seq<string>)
    requires |rows| > 0 && lines == CsvLines(rows) && headers == Keys(rows[0])
    requires HeaderCells(lines[0]) == headers
    requires forall i :: 0 <= i < |rows| ==> Fields(lines[i + 1]) == RowCells(rows[i], headers)
    ensures |RecordsOfLines(lines)| == |rows|
    ensures forall i :: 0 <= i < |rows| ==> RecordsOfLines(lines)[i] == RecordOf(headers, RowCells(rows[i], headers))
  {
  }

  /** The line written for one object holds no newline and reads back as the
      object's cells. */
  lemma EncodedRowRoundTrip(o: Object, headers: seq<string>)
    requires |headers| >= 1
    requires forall j :: 0 <= j < |o| ==> '\n' !in o[j].1
    ensures '\n' !in EncodeLine(RowCells(o, headers))
    ensures Fields(EncodeLine(RowCells(o, headers))) == RowCells(o, headers)
  {
    forall k | 0 <= k < |headers|
      ensures '\n' !in RowCells(o, headers)[k]
    {
      GetAvoids(o, headers[k], '\n');
    }
    EncodedLineHasNoNewline(RowCells(o, headers));
    FieldsOfEncodedLine(RowCells(o, headers));
  }

  /** The line split undoes joining with newlines, as long as no line holds a
      newline and no line but the last ends with a carriage return. */
  lemma SplitLinesOfJoin(lines: seq<string>)
    requires |lines| >= 1
    requires forall i :: 0 <= i < |lines| ==> '\n' !in lines[i]
    requires forall i :: 0 <= i < |lines| - 1 ==> DropCR(lines[i]) == lines[i]
    ensures SplitLines(Join("\n", lines)) == lines
  {
    SplitJoin(lines, '\n');
  }

  /** The lines with a carriage return added to all but the last. */
  function WithCR(lines: seq<string>): (r: seq<string>)
    ensures |r| == |lines|
  {
    seq(|lines|, i requires 0 <= i < |lines| => if i < |lines| - 1 then lines[i] + "\r" else lines[i])
  }

  lemma {:induction false} JoinCrLf(lines: seq<string>)
    ensures Join("\r\n", lines) == Join("\n", WithCR(lines))
  {
    if |lines| >= 2 {
      JoinCrLf(lines[1..]);
      assert WithCR(lines)[1..] == WithCR(lines[1..]);
      assert WithCR(lines)[0] == lines[0] + "\r";
    }
  }

  /** Lines ended with carriage return and newline, as text files written on
      Windows are, split back into the same lines: the `\r?` of the line split
      drops each carriage return. */
  lemma SplitLinesOfCrLf(lines: seq<string>)
    requires |lines| >= 1
    requires forall i :: 0 <= i < |lines| ==> '\n' !in lines[i]
    ensures SplitLines(Join("\r\n", lines)) == lines
  {
    var parts := WithCR(lines);
    JoinCrLf(lines);
    WithCRLines(lines);
    SplitJoin(parts, '\n');
  }

  /** The lines with carriage returns hold no newline, and dropping the
      carriage return of each but the last gives back the line. */
  lemma WithCRLines(lines: seq<string>)
    requires forall i :: 0 <= i < |lines| ==> '\n' !in lines[i]
    ensures forall i :: 0 <= i < |lines| ==> '\n' !in WithCR(lines)[i]
    ensures forall i :: 0 <= i < |lines| - 1 ==> DropCR(WithCR(lines)[i]) == lines[i]
  {
    var parts := WithCR(lines);
    forall i | 0 <= i < |parts|
      ensures '\n' !in parts[i]
    {
      assert parts[i] == lines[i] || parts[i] == lines[i] + "\r";
    }
    forall i | 0 <= i < |lines| - 1
      ensures DropCR(parts[i]) == lines[i]
    {
      assert parts[i][..|parts[i]| - 1] == lines[i];
    }
  }
}
