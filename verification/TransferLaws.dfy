/** Laws of the transfer codec on text it did not write, and of the text it does write. */
module TransferLaws {
  import opened Wrappers
  import opened Csv
  import opened Transfer
  import Text

  // ---------- Numbers ----------

  lemma {:induction false} LeadingZero(s: string)
    requires AllDigits(s)
    ensures AllDigits(['0'] + s) && Value(['0'] + s) == Value(s)
  {
    var t := ['0'] + s;
    if s != [] {
      LeadingZero(s[..|s| - 1]);
      assert t[..|t| - 1] == ['0'] + s[..|s| - 1];
    } else {
      assert t[..0] == [];
    }
  }

  /** A plus sign and leading zeros change nothing. */
  lemma PlusAndZeros(s: string)
    requires s != [] && AllDigits(s)
    ensures ParseI64(['+'] + s) == ParseI64(s) && ParseI64(['0'] + s) == ParseI64(s)
  {
    LeadingZero(s);
    assert s[0] != '-' && s[0] != '+';
    assert (['+'] + s)[1..] == s;
  }

  /** Whatever parses is an optional sign and digits, at least one. */
  lemma ParsesDigitsOnly(s: string)
    requires ParseI64(s).Some?
    ensures s != [] && '0' <= s[|s| - 1] <= '9'
    ensures forall i :: 0 <= i < |s| ==> '0' <= s[i] <= '9' || (i == 0 && (s[0] == '-' || s[0] == '+'))
  {
  }

  /** Printed and parsed again an integer is the same if it has 64 bits, and refused if not. */
  lemma DecimalParses(n: int)
    ensures ParseI64(Decimal(n)) == if I64_MIN <= n <= I64_MAX then Some(n) else None
  {
    hide Digits, Value;
    if n < 0 {
      DigitsValue(-n);
      assert Decimal(n)[1..] == Digits(-n);
    } else {
      DigitsValue(n);
      assert '0' <= Digits(n)[0];
    }
  }

  /** The digits are the usual ones. */
  lemma UsualDigits()
    ensures Decimal(65535) == "65535" && Decimal(-10) == "-10" && ParseI64("22") == Some(22)
  {
    assert Digits(6) == "6" && Digits(65) == "65" && Digits(655) == "655" && Digits(6553) == "6553";
    assert Digits(2) == "2" && Digits(22) == "22" && Digits(1) == "1" && Digits(10) == "10";
    assert Decimal(22) == "22";
    DecimalParses(22);
  }

  // ---------- Tags ----------

  lemma {:induction false} PartsSplit(a: string, c: char, b: string, current: string)
    requires Separator(c)
    ensures Parts(a + [c] + b, current) == Parts(a, current) + Parts(b, [])
  {
    var s := a + [c] + b;
    if a == [] {
      assert s[1..] == b;
    } else {
      assert s[0] == a[0] && s[1..] == a[1..] + [c] + b;
      if Separator(a[0]) {
        PartsSplit(a[1..], c, b, []);
      } else {
        PartsSplit(a[1..], c, b, current + [a[0]]);
      }
    }
  }

  lemma {:induction false} KeptAppend(a: seq<string>, b: seq<string>)
    ensures Kept(a + b) == Kept(a) + Kept(b)
  {
    if a == [] {
      assert a + b == b;
    } else {
      assert (a + b)[1..] == a[1..] + b;
      KeptAppend(a[1..], b);
    }
  }

  /** A text splits at every bar and every comma, and at nothing else: a text without either is one tag,
      trimmed, or none if nothing is left of it. */
  lemma SplitsAtSeparators(a: string, b: string)
    ensures SplitTags(a + ['|'] + b) == SplitTags(a) + SplitTags(b)
    ensures SplitTags(a + [','] + b) == SplitTags(a) + SplitTags(b)
    ensures (forall c | c in a :: c != '|' && c != ',') ==> SplitTags(a) == if Text.Trim(a) == [] then [] else [Text.Trim(a)]
  {
    PartsSplit(a, '|', b, []);
    PartsSplit(a, ',', b, []);
    KeptAppend(Parts(a, []), Parts(b, []));
    if forall c | c in a :: c != '|' && c != ',' {
      assert forall i :: 0 <= i < |a| ==> a[i] in a;
      PartsPlain(a, [], []);
      assert a + [] == a && [] + a == a;
      assert Parts([], a) == [a];
      assert [a][1..] == [];
      assert Kept([a]) == (if Text.Trim(a) == [] then [] else [Text.Trim(a)]) + Kept([]);
    }
  }

  /** Tags are written with a bar between each two. */
  lemma {:induction false} JoinedByBars(tags: seq<string>, last: string)
    requires tags != []
    ensures JoinTags(tags + [last]) == JoinTags(tags) + ['|'] + last
    ensures JoinTags([last]) == last
  {
    assert (tags + [last])[1..] == tags[1..] + [last];
    if |tags| > 1 {
      JoinedByBars(tags[1..], last);
    } else {
      assert tags[1..] + [last] == [last];
    }
  }

  // ---------- Columns ----------

  /** Each value is written under its own heading. */
  lemma ColumnsWritten(row: TransferRow)
    ensures |RecordOf(row)| == |HEADER| == 7
    ensures HEADER[0] == "name" && RecordOf(row)[0] == row.name
    ensures HEADER[1] == "hostname" && RecordOf(row)[1] == row.hostname
    ensures HEADER[2] == "port" && ParseI64(RecordOf(row)[2]) == Some(row.port)
    ensures HEADER[3] == "description" && RecordOf(row)[3] == if row.description.Some? then row.description.value else ""
    ensures HEADER[4] == "tags" && RecordOf(row)[4] == JoinTags(row.tags)
    ensures HEADER[5] == "credential_id" && RecordOf(row)[5] == if row.credential.Some? then row.credential.value else ""
    ensures HEADER[6] == "protocol" && RecordOf(row)[6] == row.protocol
  {
    DecimalRoundTrip(row.port);
  }

  /** Each value is read from under its own heading; a record with more or fewer fields, or a port that
      is no number, is refused. */
  lemma ColumnsRead(record: Record)
    ensures RowOf(record).Some? <==> |record| == 7 && ParseI64(record[2]).Some?
    ensures RowOf(record).Some? ==>
      var row := RowOf(record).value;
      && row.name == record[0] && row.hostname == record[1] && Some(row.port) == ParseI64(record[2])
      && row.description == (if Text.Trim(record[3]) == [] then None else Some(Text.Trim(record[3])))
      && row.tags == SplitTags(record[4])
      && row.credential == (if Text.Trim(record[5]) == [] then None else Some(Text.Trim(record[5])))
      && row.protocol == record[6]
  {
    hide ParseI64, SplitTags, Text.Trim;
  }

  lemma HeadingsPlain()
    ensures Plain("name") && Plain("hostname") && Plain("port") && Plain("description")
    ensures Plain("tags") && Plain("credential_id") && Plain("protocol")
  {
  }

  /** Plain fields are printed side by side. */
  lemma PlainRow(f: Record)
    requires |f| == 7 && forall i :: 0 <= i < 7 ==> Plain(f[i])
    ensures RowText(f) == f[0] + "," + f[1] + "," + f[2] + "," + f[3] + "," + f[4] + "," + f[5] + "," + f[6] + "\n"
  {
    hide Plain;
    assert Joined(f, 0) == [];
    assert Joined(f, 1) == f[0];
    assert Joined(f, 2) == f[0] + "," + f[1];
    assert Joined(f, 3) == f[0] + "," + f[1] + "," + f[2];
    assert Joined(f, 4) == f[0] + "," + f[1] + "," + f[2] + "," + f[3];
    assert Joined(f, 5) == f[0] + "," + f[1] + "," + f[2] + "," + f[3] + "," + f[4];
    assert Joined(f, 6) == f[0] + "," + f[1] + "," + f[2] + "," + f[3] + "," + f[4] + "," + f[5];
  }

  /** The first line of every file, and the whole of an empty one. */
  lemma HeaderLine()
    ensures AssetText([]) == "name" + "," + "hostname" + "," + "port" + "," + "description" + "," + "tags" + ","
                             + "credential_id" + "," + "protocol" + "\n"
  {
    hide RowText, Plain;
    HeadingsPlain();
    PlainRow(HEADER);
    assert [HEADER] + RecordsOf([]) == [HEADER];
    assert RowsText([HEADER]) == RowText(HEADER) + RowsText([]);
  }

  /** A record of nothing but white space is skipped wherever it stands, whatever its length. */
  lemma {:induction false} BlankSkipped(a: seq<Record>, blank: Record, b: seq<Record>)
    requires forall i :: 0 <= i < |blank| ==> Text.Trim(blank[i]) == []
    ensures RowsOf(a + [blank] + b) == RowsOf(a + b)
    decreases |b|
  {
    hide RowOf, Text.Trim;
    var s, t := a + [blank] + b, a + b;
    if b == [] {
      assert s[..|s| - 1] == a && s[|s| - 1] == blank && t == a;
    } else {
      var front := b[..|b| - 1];
      BlankSkipped(a, blank, front);
      assert s[..|s| - 1] == a + [blank] + front && t[..|t| - 1] == a + front;
      assert s[|s| - 1] == t[|t| - 1] == b[|b| - 1];
    }
  }

  /** One record that is neither blank nor a row spoils the file. */
  lemma {:induction false} BadRecordRefused(a: seq<Record>, bad: Record, b: seq<Record>)
    requires RowOf(bad) == None && exists i :: 0 <= i < |bad| && Text.Trim(bad[i]) != []
    ensures RowsOf(a + [bad] + b) == None
    decreases |b|
  {
    hide RowOf, Text.Trim;
    var s := a + [bad] + b;
    if b == [] {
      assert s[..|s| - 1] == a && s[|s| - 1] == bad;
    } else {
      BadRecordRefused(a, bad, b[..|b| - 1]);
      assert s[..|s| - 1] == a + [bad] + b[..|b| - 1];
    }
  }
}
