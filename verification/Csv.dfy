/** The CSV printer and the parser with one character of lookahead; quoting follows items 5 to 7 of
    section 2 of RFC 4180. */
module Csv {
  type Record = seq<string>

  // ---------- Printing ----------

  predicate Special(c: char) {
    c == ',' || c == '"' || c == '\n' || c == '\r'
  }

  predicate Plain(field: string) {
    forall i :: 0 <= i < |field| ==> !Special(field[i])
  }

  /** Every quote doubled. */
  function Doubled(field: string): string {
    if field == [] then []
    else (if field[0] == '"' then ['"', '"'] else [field[0]]) + Doubled(field[1..])
  }

  function EscapeField(field: string): string {
    if Plain(field) then field else ['"'] + Doubled(field) + ['"']
  }

  /** The text of the first `n` fields, separated by commas. */
  function Joined(fields: Record, n: nat): string
    requires n <= |fields|
  {
    if n == 0 then []
    else Joined(fields, n - 1) + (if n > 1 then [','] else []) + EscapeField(fields[n - 1])
  }

  function RowText(fields: Record): string {
    Joined(fields, |fields|) + ['\n']
  }

  function RowsText(records: seq<Record>): string {
    if records == [] then [] else RowText(records[0]) + RowsText(records[1..])
  }

  method PushRow(output: string, fields: Record) returns (result: string)
    ensures result == output + RowText(fields)
  {
    hide EscapeField;
    result := output;
    for i := 0 to |fields|
      invariant result == output + Joined(fields, i)
    {
      if i > 0 { result := result + [',']; }
      result := result + EscapeField(fields[i]);
    }
    result := result + ['\n'];
  }

  // ---------- Parsing ----------

  /** What is left to read, given the quotation state, the field and record under way, and the
      records complete so far. */
  function ReadFrom(s: string, quoted: bool, field: string, row: Record, records: seq<Record>): seq<Record>
    decreases |s|
  {
    if s == [] then
      if field != [] || row != [] then records + [row + [field]] else records
    else if s[0] == '"' && quoted && |s| > 1 && s[1] == '"' then ReadFrom(s[2..], quoted, field + ['"'], row, records)
    else if s[0] == '"' then ReadFrom(s[1..], !quoted, field, row, records)
    else if s[0] == ',' && !quoted then ReadFrom(s[1..], quoted, [], row + [field], records)
    else if s[0] == '\n' && !quoted then ReadFrom(s[1..], quoted, [], [], records + [row + [field]])
    else if s[0] == '\r' && !quoted then ReadFrom(s[1..], quoted, field, row, records)
    else ReadFrom(s[1..], quoted, field + [s[0]], row, records)
  }

  function Read(input: string): seq<Record> {
    ReadFrom(input, false, [], [], [])
  }

  method ReadCsvRecords(input: string) returns (records: seq<Record>)
    ensures records == Read(input)
  {
    records := [];
    var row: Record, field, quoted, i := [], [], false, 0;
    while i < |input|
      invariant i <= |input|
      invariant ReadFrom(input[i..], quoted, field, row, records) == Read(input)
    {
      var ch := input[i];
      assert input[i..][1..] == input[i + 1..];
      i := i + 1;
      if ch == '"' && quoted && i < |input| && input[i] == '"' {
        field := field + ['"'];
        assert input[i - 1..][2..] == input[i + 1..];
        i := i + 1;
      } else if ch == '"' {
        quoted := !quoted;
      } else if ch == ',' && !quoted {
        row, field := row + [field], [];
      } else if ch == '\n' && !quoted {
        row := row + [field];
        records, row, field := records + [row], [], [];
      } else if ch == '\r' && !quoted {
      } else {
        field := field + [ch];
      }
    }
    if field != [] || row != [] {
      records := records + [row + [field]];
    }
  }

  // ---------- Reading back what was printed ----------

  lemma {:induction false} ReadPlain(f: string, rest: string, field: string, row: Record, records: seq<Record>)
    requires Plain(f)
    ensures ReadFrom(f + rest, false, field, row, records) == ReadFrom(rest, false, field + f, row, records)
  {
    if f == [] {
      assert f + rest == rest && field + f == field;
    } else {
      assert !Special(f[0]);
      assert (f + rest)[0] == f[0] && (f + rest)[1..] == f[1..] + rest;
      ReadPlain(f[1..], rest, field + [f[0]], row, records);
      assert field + [f[0]] + f[1..] == field + f;
    }
  }

  lemma {:induction false} ReadDoubled(f: string, rest: string, field: string, row: Record, records: seq<Record>)
    requires rest == [] || rest[0] != '"'
    ensures ReadFrom(Doubled(f) + ['"'] + rest, true, field, row, records) == ReadFrom(rest, false, field + f, row, records)
  {
    var s := Doubled(f) + ['"'] + rest;
    if f == [] {
      assert s == ['"'] + rest && s[1..] == rest && field + f == field;
    } else {
      var tail := Doubled(f[1..]) + ['"'] + rest;
      ReadDoubled(f[1..], rest, field + [f[0]], row, records);
      assert field + [f[0]] + f[1..] == field + f;
      if f[0] == '"' {
        assert s == ['"', '"'] + tail && s[2..] == tail;
      } else {
        assert s == [f[0]] + tail && s[1..] == tail;
      }
    }
  }

  lemma ReadOpening(rest: string, row: Record, records: seq<Record>)
    ensures ReadFrom(['"'] + rest, false, [], row, records) == ReadFrom(rest, true, [], row, records)
  {
    assert (['"'] + rest)[1..] == rest;
  }

  lemma ReadComma(rest: string, field: string, row: Record, records: seq<Record>)
    ensures ReadFrom([','] + rest, false, field, row, records) == ReadFrom(rest, false, [], row + [field], records)
  {
    assert ([','] + rest)[1..] == rest;
  }

  lemma ReadEscaped(f: string, rest: string, row: Record, records: seq<Record>)
    requires rest == [] || rest[0] != '"'
    ensures ReadFrom(EscapeField(f) + rest, false, [], row, records) == ReadFrom(rest, false, f, row, records)
  {
    hide ReadFrom, Doubled, Plain;
    assert [] + f == f;
    if Plain(f) {
      ReadPlain(f, rest, [], row, records);
    } else {
      var inner := Doubled(f) + ['"'] + rest;
      assert EscapeField(f) + rest == ['"'] + inner;
      ReadOpening(inner, row, records);
      ReadDoubled(f, rest, [], row, records);
    }
  }

  /** After the first `n` fields the reader holds the last of them, the ones before it set. */
  lemma {:induction false} ReadJoined(fields: Record, n: nat, rest: string, records: seq<Record>)
    requires 0 < n <= |fields|
    requires rest == [] || rest[0] != '"'
    ensures ReadFrom(Joined(fields, n) + rest, false, [], [], records)
         == ReadFrom(rest, false, fields[n - 1], fields[..n - 1], records)
  {
    hide ReadFrom, EscapeField;
    var last := EscapeField(fields[n - 1]);
    if n == 1 {
      assert Joined(fields, 0) == [];
      assert Joined(fields, 1) == last;
      ReadEscaped(fields[0], rest, [], records);
      assert fields[..0] == [];
    } else {
      assert Joined(fields, n) + rest == Joined(fields, n - 1) + ([','] + (last + rest));
      ReadJoined(fields, n - 1, [','] + (last + rest), records);
      ReadComma(last + rest, fields[n - 2], fields[..n - 2], records);
      assert fields[..n - 2] + [fields[n - 2]] == fields[..n - 1];
      ReadEscaped(fields[n - 1], rest, fields[..n - 1], records);
    }
  }

  /** A record without fields is read back as one empty field. */
  function Normal(fields: Record): Record {
    if fields == [] then [""] else fields
  }

  lemma ReadNewline(rest: string, field: string, row: Record, records: seq<Record>)
    ensures ReadFrom(['\n'] + rest, false, field, row, records) == ReadFrom(rest, false, [], [], records + [row + [field]])
  {
    assert (['\n'] + rest)[1..] == rest;
  }

  lemma ReadRow(fields: Record, rest: string, records: seq<Record>)
    ensures ReadFrom(RowText(fields) + rest, false, [], [], records)
         == ReadFrom(rest, false, [], [], records + [Normal(fields)])
  {
    hide ReadFrom, EscapeField;
    var after := ['\n'] + rest;
    assert RowText(fields) + rest == Joined(fields, |fields|) + after;
    if fields == [] {
      assert RowText(fields) + rest == after;
      ReadNewline(rest, [], [], records);
      assert fields + [""] == Normal(fields);
    } else {
      ReadJoined(fields, |fields|, after, records);
      ReadNewline(rest, fields[|fields| - 1], fields[..|fields| - 1], records);
      assert fields[..|fields| - 1] + [fields[|fields| - 1]] == fields;
    }
  }

  function AllNormal(records: seq<Record>): seq<Record> {
    seq(|records|, i requires 0 <= i < |records| => Normal(records[i]))
  }

  lemma ReadNothing(records: seq<Record>)
    ensures ReadFrom([], false, [], [], records) == records
  {
  }

  lemma {:induction false} ReadRows(records: seq<Record>, rest: string, before: seq<Record>)
    ensures ReadFrom(RowsText(records) + rest, false, [], [], before) == ReadFrom(rest, false, [], [], before + AllNormal(records))
  {
    hide ReadFrom, RowText, Normal;
    if records == [] {
      assert RowsText(records) + rest == rest;
      assert before + AllNormal(records) == before;
    } else {
      ReadRow(records[0], RowsText(records[1..]) + rest, before);
      assert RowsText(records) + rest == RowText(records[0]) + (RowsText(records[1..]) + rest);
      ReadRows(records[1..], rest, before + [Normal(records[0])]);
      assert before + AllNormal(records) == before + [Normal(records[0])] + AllNormal(records[1..]);
    }
  }

  lemma ReadAllRows(records: seq<Record>)
    ensures Read(RowsText(records)) == AllNormal(records)
  {
    ReadRows(records, [], []);
    ReadNothing([] + AllNormal(records));
    assert RowsText(records) + [] == RowsText(records);
    assert [] + AllNormal(records) == AllNormal(records);
  }

  /** Printed records over any characters at all are read back exactly, if and only if each has at
      least one field. */
  lemma RecordRoundTrip(records: seq<Record>)
    ensures Read(RowsText(records)) == records <==> forall i :: 0 <= i < |records| ==> records[i] != []
  {
    ReadAllRows(records);
    hide ReadFrom;
    if forall i :: 0 <= i < |records| ==> records[i] != [] {
      assert AllNormal(records) == records;
    } else {
      var i :| 0 <= i < |records| && records[i] == [];
      assert AllNormal(records)[i] == [""];
    }
  }

  /** Every record the reader yields has at least one field. */
  lemma {:induction false} ReadNonempty(s: string, quoted: bool, field: string, row: Record, records: seq<Record>)
    requires forall i :: 0 <= i < |records| ==> records[i] != []
    ensures forall r :: r in ReadFrom(s, quoted, field, row, records) ==> r != []
    decreases |s|
  {
    if s == [] {
    } else if s[0] == '"' && quoted && |s| > 1 && s[1] == '"' {
      ReadNonempty(s[2..], quoted, field + ['"'], row, records);
    } else if s[0] == '"' {
      ReadNonempty(s[1..], !quoted, field, row, records);
    } else if s[0] == ',' && !quoted {
      ReadNonempty(s[1..], quoted, [], row + [field], records);
    } else if s[0] == '\n' && !quoted {
      ReadNonempty(s[1..], quoted, [], [], records + [row + [field]]);
    } else if s[0] == '\r' && !quoted {
      ReadNonempty(s[1..], quoted, field, row, records);
    } else {
      ReadNonempty(s[1..], quoted, field + [s[0]], row, records);
    }
  }

  /** Printing what was read and reading it again gives the same records, for every text. */
  lemma ReprintStable(input: string)
    ensures Read(RowsText(Read(input))) == Read(input)
  {
    ReadNonempty(input, false, [], [], []);
    assert forall i :: 0 <= i < |Read(input)| ==> Read(input)[i] in Read(input);
    RecordRoundTrip(Read(input));
  }
}
