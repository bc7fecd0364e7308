/** Laws of the CSV reader on text the printer did not write, and of the printer's quoting. */
module CsvLaws {
  import opened Csv

  // ---------- The end of the text, and the ends of lines ----------

  lemma {:induction false} RowsTextLast(front: seq<Record>, last: Record)
    ensures RowsText(front + [last]) == RowsText(front) + RowText(last)
  {
    hide RowText;
    if front != [] {
      assert (front + [last])[1..] == front[1..] + [last];
      RowsTextLast(front[1..], last);
    } else {
      assert (front + [last])[1..] == [];
    }
  }

  lemma ReadEnd(field: string, row: Record, records: seq<Record>)
    ensures ReadFrom([], false, field, row, records) == if field != [] || row != [] then records + [row + [field]] else records
  {
  }

  /** A last record without its line feed is read all the same, unless it is empty. */
  lemma ReadUnfinished(records: seq<Record>, last: Record)
    ensures Read(RowsText(records) + Joined(last, |last|)) ==
      AllNormal(records) + if last == [] || last == [""] then [] else [last]
  {
    hide ReadFrom, RowsText, Joined;
    var before := [] + AllNormal(records);
    assert before == AllNormal(records);
    ReadRows(records, Joined(last, |last|), []);
    if last == [] {
      NothingJoined(last);
      ReadEnd([], [], before);
    } else {
      assert Joined(last, |last|) + [] == Joined(last, |last|);
      ReadJoined(last, |last|, [], before);
      ReadEnd(last[|last| - 1], last[..|last| - 1], before);
      assert last[..|last| - 1] + [last[|last| - 1]] == last;
    }
  }

  lemma NothingJoined(fields: Record)
    requires fields == []
    ensures Joined(fields, |fields|) == []
  {
  }

  /** Printed text less its final line feed reads back as the same records, if and only if each has a
      field and the last is not a single empty one. */
  lemma FinalLineFeedOptional(records: seq<Record>)
    requires records != []
    ensures var text := RowsText(records);
      && text != [] && text[|text| - 1] == '\n'
      && (Read(text[..|text| - 1]) == records <==>
            (forall i :: 0 <= i < |records| ==> records[i] != []) && records[|records| - 1] != [""])
  {
    var front, last := records[..|records| - 1], records[|records| - 1];
    assert records == front + [last];
    RowsTextLast(front, last);
    assert RowsText(records)[..|RowsText(records)| - 1] == RowsText(front) + Joined(last, |last|);
    ReadUnfinished(front, last);
    hide Read, RowsText;
    if forall i :: 0 <= i < |records| ==> records[i] != [] {
      assert AllNormal(front) == front;
    } else {
      var i :| 0 <= i < |records| && records[i] == [];
      if i < |front| { assert AllNormal(front)[i] == [""]; }
    }
  }

  /** The text with every record ended by CR LF. */
  function CrLfText(records: seq<Record>): string {
    if records == [] then [] else Joined(records[0], |records[0]|) + ['\r', '\n'] + CrLfText(records[1..])
  }

  lemma ReadReturn(rest: string, field: string, row: Record, records: seq<Record>)
    ensures ReadFrom(['\r'] + rest, false, field, row, records) == ReadFrom(rest, false, field, row, records)
  {
    assert (['\r'] + rest)[1..] == rest;
  }

  lemma ReadCrLfRow(fields: Record, rest: string, records: seq<Record>)
    ensures ReadFrom(Joined(fields, |fields|) + ['\r', '\n'] + rest, false, [], [], records)
         == ReadFrom(rest, false, [], [], records + [Normal(fields)])
  {
    hide ReadFrom, EscapeField;
    var after := ['\r'] + (['\n'] + rest);
    assert Joined(fields, |fields|) + ['\r', '\n'] + rest == Joined(fields, |fields|) + after;
    if fields == [] {
      assert Joined(fields, |fields|) + after == after;
      ReadReturn(['\n'] + rest, [], [], records);
      ReadNewline(rest, [], [], records);
      assert fields + [""] == Normal(fields);
    } else {
      ReadJoined(fields, |fields|, after, records);
      ReadReturn(['\n'] + rest, fields[|fields| - 1], fields[..|fields| - 1], records);
      ReadNewline(rest, fields[|fields| - 1], fields[..|fields| - 1], records);
      assert fields[..|fields| - 1] + [fields[|fields| - 1]] == fields;
    }
  }

  lemma {:induction false} ReadCrLfRows(records: seq<Record>, before: seq<Record>)
    ensures ReadFrom(CrLfText(records), false, [], [], before) == before + AllNormal(records)
  {
    hide ReadFrom, Normal, Joined;
    if records == [] {
      ReadNothing(before);
      assert before + AllNormal(records) == before;
    } else {
      ReadCrLfRow(records[0], CrLfText(records[1..]), before);
      ReadCrLfRows(records[1..], before + [Normal(records[0])]);
      assert AllNormal(records) == [Normal(records[0])] + AllNormal(records[1..]);
    }
  }

  /** Ending records in CR LF reads the same as ending them in LF. */
  lemma CrLfReadsAsLf(records: seq<Record>)
    ensures Read(CrLfText(records)) == Read(RowsText(records))
  {
    ReadCrLfRows(records, []);
    ReadAllRows(records);
    assert [] + AllNormal(records) == AllNormal(records);
  }

  /** Whether the reader is inside quotes after a text: every quote, doubled ones too, toggles. */
  function OpenAfter(s: string, open: bool): bool {
    if s == [] then open else OpenAfter(s[1..], if s[0] == '"' then !open else open)
  }

  lemma {:induction false} ReturnDropped(a: string, b: string, quoted: bool, field: string, row: Record, records: seq<Record>)
    requires !OpenAfter(a, quoted)
    requires !(a != [] && a[|a| - 1] == '"' && b != [] && b[0] == '"')
    ensures ReadFrom(a + ['\r'] + b, quoted, field, row, records) == ReadFrom(a + b, quoted, field, row, records)
    decreases |a|
  {
    var x, y := a + ['\r'] + b, a + b;
    if a == [] {
      assert x == ['\r'] + b && y == b;
      ReadReturn(b, field, row, records);
    } else {
      assert x[0] == y[0] == a[0];
      assert x[1..] == a[1..] + ['\r'] + b && y[1..] == a[1..] + b;
      if a[0] == '"' && quoted && |a| > 1 && a[1] == '"' {
        assert x[2..] == a[2..] + ['\r'] + b && y[2..] == a[2..] + b;
        assert OpenAfter(a, quoted) == OpenAfter(a[1..], !quoted) == OpenAfter(a[2..], quoted);
        ReturnDropped(a[2..], b, quoted, field + ['"'], row, records);
      } else if a[0] == '"' {
        assert |a| > 1 ==> x[1] == a[1] && y[1] == a[1];
        ReturnDropped(a[1..], b, !quoted, field, row, records);
      } else if a[0] == ',' && !quoted {
        ReturnDropped(a[1..], b, quoted, [], row + [field], records);
      } else if a[0] == '\n' && !quoted {
        ReturnDropped(a[1..], b, quoted, [], [], records + [row + [field]]);
      } else if a[0] == '\r' && !quoted {
        ReturnDropped(a[1..], b, quoted, field, row, records);
      } else {
        ReturnDropped(a[1..], b, quoted, field + [a[0]], row, records);
      }
    }
  }

  /** A carriage return outside quotes is dropped wherever it stands, but it keeps two quotes apart. */
  lemma CarriageReturnsDropped(a: string, b: string)
    requires !OpenAfter(a, false) && !(a != [] && a[|a| - 1] == '"' && b != [] && b[0] == '"')
    ensures Read(a + ['\r'] + b) == Read(a + b)
  {
    ReturnDropped(a, b, false, [], [], []);
  }

  // ---------- Quotes ----------

  lemma ReadOpen(rest: string, field: string, row: Record, records: seq<Record>)
    ensures ReadFrom(['"'] + rest, false, field, row, records) == ReadFrom(rest, true, field, row, records)
  {
    assert (['"'] + rest)[1..] == rest;
  }

  /** Quotes may enclose any part of a field: what they enclose, with doubled quotes for single ones, is
      taken as it stands. */
  lemma QuotedPart(before: string, part: string, after: string)
    requires Plain(before) && Plain(after)
    ensures Read(before + ['"'] + Doubled(part) + ['"'] + after + ['\n']) == [[before + part + after]]
  {
    hide ReadFrom, Doubled, Plain;
    var tail := after + ['\n'];
    var inner := Doubled(part) + ['"'] + tail;
    assert before + ['"'] + Doubled(part) + ['"'] + after + ['\n'] == before + (['"'] + inner);
    ReadPlain(before, ['"'] + inner, [], [], []);
    assert [] + before == before;
    ReadOpen(inner, before, [], []);
    AfterPlain(after);
    ReadDoubled(part, tail, before, [], []);
    ReadPlain(after, ['\n'], before + part, [], []);
    assert ['\n'] + [] == ['\n'];
    ReadNewline([], before + part + after, [], []);
    var field: string, none: Record := before + part + after, [];
    assert none + [field] == [field] && [] + [[field]] == [[field]];
    ReadNothing([[field]]);
  }

  lemma AfterPlain(after: string)
    requires Plain(after)
    ensures (after + ['\n'])[0] != '"'
  {
    if after != [] { assert !Special(after[0]); }
  }

  lemma {:induction false} ReadUnclosed(f: string, field: string, row: Record, records: seq<Record>)
    requires forall i :: 0 <= i < |f| ==> f[i] != '"'
    ensures ReadFrom(f, true, field, row, records) == if field + f != [] || row != [] then records + [row + [field + f]] else records
  {
    if f == [] {
      assert field + f == field;
    } else {
      ReadUnclosed(f[1..], field + [f[0]], row, records);
      assert field + [f[0]] + f[1..] == field + f;
    }
  }

  /** Quotes left open take everything to the end of the text, line feeds and commas too. */
  lemma UnclosedQuote(f: string)
    requires f != [] && forall i :: 0 <= i < |f| ==> f[i] != '"'
    ensures Read(['"'] + f) == [[f]]
  {
    ReadOpen(f, [], [], []);
    ReadUnclosed(f, [], [], []);
    assert [] + f == f && [] + [f] == [f];
  }

  lemma {:induction false} DoubledAlone(f: string)
    requires forall c | c in f :: c != '"'
    ensures Doubled(f) == f
  {
    if f != [] {
      assert f[0] in f && forall c :: c in f[1..] ==> c in f;
      DoubledAlone(f[1..]);
    }
  }

  lemma {:induction false} DoubledApart(a: string, b: string)
    ensures Doubled(a + b) == Doubled(a) + Doubled(b)
  {
    if a == [] {
      assert a + b == b;
    } else {
      assert (a + b)[1..] == a[1..] + b;
      DoubledApart(a[1..], b);
    }
  }

  /** Inside quotes every quote is doubled, and nothing else is changed. */
  lemma QuotesDoubled(a: string, b: string)
    ensures Doubled(a + ['"'] + b) == Doubled(a) + ['"', '"'] + Doubled(b)
    ensures (forall c | c in a :: c != '"') ==> Doubled(a) == a
  {
    DoubledApart(a + ['"'], b);
    DoubledApart(a, ['"']);
    assert Doubled(['"']) == ['"', '"'] + Doubled([]);
    if forall c | c in a :: c != '"' { DoubledAlone(a); }
  }

  /** The printer quotes a field if and only if it holds a comma, a quote or a line break; a field it
      does not quote it prints as it is, and one it quotes starts and ends with a quote. */
  lemma QuotesWhenNeeded(f: string)
    ensures (forall c | c in f :: c != ',' && c != '"' && c != '\n' && c != '\r') ==> EscapeField(f) == f
    ensures (exists c | c in f :: c == ',' || c == '"' || c == '\n' || c == '\r') ==>
      |EscapeField(f)| >= 2 && EscapeField(f)[0] == '"' && EscapeField(f)[|EscapeField(f)| - 1] == '"'
  {
    assert forall i :: 0 <= i < |f| ==> f[i] in f;
  }
}
