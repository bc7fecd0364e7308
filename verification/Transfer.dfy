/** Asset rows as CSV: writing, reading, and the normal form the two agree on. */
module Transfer {
  import opened Wrappers
  import opened Csv
  import Text

  const I64_MIN := -0x8000_0000_0000_0000
  const I64_MAX := 0x7FFF_FFFF_FFFF_FFFF

  type I64 = n: int | I64_MIN <= n <= I64_MAX

  datatype TransferRow = TransferRow(
    name: string, hostname: string, port: I64, description: Option<string>,
    tags: seq<string>, credential: Option<string>, protocol: string)

  const HEADER: Record := ["name", "hostname", "port", "description", "tags", "credential_id", "protocol"]

  // ---------- Numbers ----------

  function Digit(d: nat): char
    requires d < 10
  {
    '0' + d as char
  }

  function Digits(n: nat): string {
    if n < 10 then [Digit(n)] else Digits(n / 10) + [Digit(n % 10)]
  }

  function Decimal(n: int): string {
    if n < 0 then "-" + Digits(-n) else Digits(n)
  }

  predicate AllDigits(s: string) {
    forall i :: 0 <= i < |s| ==> '0' <= s[i] <= '9'
  }

  function Value(s: string): nat
    requires AllDigits(s)
  {
    if s == [] then 0 else Value(s[..|s| - 1]) * 10 + (s[|s| - 1] - '0') as nat
  }

  /** Parses a 64-bit integer: an optional sign, then digits only. */
  function ParseI64(s: string): Option<I64> {
    var signed := s != [] && (s[0] == '-' || s[0] == '+');
    var digits := if signed then s[1..] else s;
    if digits == [] || !AllDigits(digits) then None
    else
      var n: int := if signed && s[0] == '-' then -(Value(digits) as int) else Value(digits);
      if I64_MIN <= n <= I64_MAX then Some(n) else None
  }

  lemma {:induction false} DigitsValue(n: nat)
    ensures Digits(n) != [] && AllDigits(Digits(n)) && Value(Digits(n)) == n
  {
    if n >= 10 {
      DigitsValue(n / 10);
      var s := Digits(n);
      assert s[..|s| - 1] == Digits(n / 10);
    } else {
      assert Digits(n)[..0] == [];
    }
  }

  /** A 64-bit integer survives printing and parsing. */
  lemma DecimalRoundTrip(n: I64)
    ensures ParseI64(Decimal(n)) == Some(n)
  {
    if n < 0 {
      var opposite: int := 0 - n as int;
      DigitsValue(opposite);
      assert Decimal(n)[1..] == Digits(opposite);
    } else {
      DigitsValue(n);
      assert '0' <= Digits(n)[0];
    }
  }

  // ---------- Optional text and tags ----------

  function OrEmpty(value: Option<string>): string {
    if value.Some? then value.value else ""
  }

  predicate Separator(c: char) {
    c == '|' || c == ','
  }

  /** The parts of a text between separators; `current` is the part under way. */
  function Parts(value: string, current: string): seq<string> {
    if value == [] then [current]
    else if Separator(value[0]) then [current] + Parts(value[1..], [])
    else Parts(value[1..], current + [value[0]])
  }

  /** The parts trimmed, without the empty ones. */
  function Kept(parts: seq<string>): seq<string> {
    if parts == [] then []
    else
      var tag := Text.Trim(parts[0]);
      (if tag == [] then [] else [tag]) + Kept(parts[1..])
  }

  function SplitTags(value: string): seq<string> {
    Kept(Parts(value, []))
  }

  function JoinTags(tags: seq<string>): string {
    if tags == [] then [] else if |tags| == 1 then tags[0] else tags[0] + ['|'] + JoinTags(tags[1..])
  }

  predicate CanonicalText(value: Option<string>) {
    value.Some? ==> value.value != [] && Text.Trimmed(value.value)
  }

  predicate CanonicalTag(tag: string) {
    tag != [] && Text.Trimmed(tag) && forall i :: 0 <= i < |tag| ==> !Separator(tag[i])
  }

  predicate CanonicalTags(tags: seq<string>) {
    forall i :: 0 <= i < |tags| ==> CanonicalTag(tags[i])
  }

  predicate Canonical(row: TransferRow) {
    CanonicalText(row.description) && CanonicalTags(row.tags) && CanonicalText(row.credential)
  }

  lemma {:induction false} PartsPlain(tag: string, rest: string, current: string)
    requires forall i :: 0 <= i < |tag| ==> !Separator(tag[i])
    ensures Parts(tag + rest, current) == Parts(rest, current + tag)
  {
    if tag == [] {
      assert tag + rest == rest && current + tag == current;
    } else {
      assert !Separator(tag[0]);
      assert (tag + rest)[1..] == tag[1..] + rest;
      PartsPlain(tag[1..], rest, current + [tag[0]]);
      assert current + [tag[0]] + tag[1..] == current + tag;
    }
  }

  lemma {:induction false} SplitJoined(tags: seq<string>)
    requires CanonicalTags(tags)
    ensures SplitTags(JoinTags(tags)) == tags
  {
    if tags == [] {
      assert Parts([], []) == [""];
      Text.TrimFixpoint("");
    } else {
      assert CanonicalTag(tags[0]);
      Text.TrimFixpoint(tags[0]);
      assert [] + tags[0] == tags[0];
      if |tags| == 1 {
        PartsPlain(tags[0], [], []);
        assert tags[0] + [] == tags[0] == JoinTags(tags);
        assert Parts([], tags[0]) == [tags[0]];
        assert [tags[0]][1..] == [];
        assert Kept([tags[0]]) == [tags[0]] + Kept([]);
      } else {
        var rest := ['|'] + JoinTags(tags[1..]);
        assert JoinTags(tags) == tags[0] + rest && rest[1..] == JoinTags(tags[1..]);
        PartsPlain(tags[0], rest, []);
        SplitJoined(tags[1..]);
        var tail := Parts(JoinTags(tags[1..]), []);
        assert ([tags[0]] + tail)[1..] == tail;
        assert tags == [tags[0]] + tags[1..];
      }
    }
  }

  /** Trimming keeps a contiguous part. */
  lemma TrimWithin(s: string)
    ensures forall i :: 0 <= i < |Text.Trim(s)| ==> Text.Trim(s)[i] in s
    ensures Text.Trim(s) == [] ==> forall i :: 0 <= i < |s| ==> Text.IsSpace(s[i])
  {
    TrimStartWithin(s);
    TrimEndWithin(Text.TrimStart(s));
    var t := Text.TrimStart(s);
    assert t == [] || !Text.IsSpace(t[0]);
  }

  lemma {:induction false} TrimStartWithin(s: string)
    ensures forall i :: 0 <= i < |Text.TrimStart(s)| ==> Text.TrimStart(s)[i] in s
    ensures Text.TrimStart(s) == [] ==> forall i :: 0 <= i < |s| ==> Text.IsSpace(s[i])
  {
    if s != [] && Text.IsSpace(s[0]) {
      TrimStartWithin(s[1..]);
      assert s == [s[0]] + s[1..];
    }
  }

  lemma {:induction false} TrimEndWithin(s: string)
    ensures forall i :: 0 <= i < |Text.TrimEnd(s)| ==> Text.TrimEnd(s)[i] in s
    ensures Text.TrimEnd(s) == [] ==> forall i :: 0 <= i < |s| ==> Text.IsSpace(s[i])
  {
    if s != [] && Text.IsSpace(s[|s| - 1]) {
      TrimEndWithin(s[..|s| - 1]);
      assert s == s[..|s| - 1] + [s[|s| - 1]];
    }
  }

  predicate Unseparated(s: string) {
    forall i :: 0 <= i < |s| ==> !Separator(s[i])
  }

  lemma {:induction false} PartsUnseparated(value: string, current: string)
    requires Unseparated(current)
    ensures forall i :: 0 <= i < |Parts(value, current)| ==> Unseparated(Parts(value, current)[i])
  {
    if value != [] {
      if Separator(value[0]) { PartsUnseparated(value[1..], []); } else { PartsUnseparated(value[1..], current + [value[0]]); }
    }
  }

  lemma {:induction false} KeptCanonical(parts: seq<string>)
    requires forall i :: 0 <= i < |parts| ==> Unseparated(parts[i])
    ensures CanonicalTags(Kept(parts))
  {
    if parts != [] {
      KeptCanonical(parts[1..]);
      Text.TrimFixpoint(parts[0]);
      TrimWithin(parts[0]);
    }
  }

  lemma SplitCanonical(value: string)
    ensures CanonicalTags(SplitTags(value))
  {
    PartsUnseparated(value, []);
    KeptCanonical(Parts(value, []));
  }

  lemma NonEmptyCanonical(value: string)
    ensures CanonicalText(Text.NonEmpty(value))
  {
    Text.TrimFixpoint(value);
  }

  // ---------- Rows ----------

  function RecordOf(row: TransferRow): Record {
    [row.name, row.hostname, Decimal(row.port), OrEmpty(row.description), JoinTags(row.tags),
     OrEmpty(row.credential), row.protocol]
  }

  function RecordsOf(rows: seq<TransferRow>): seq<Record> {
    seq(|rows|, i requires 0 <= i < |rows| => RecordOf(rows[i]))
  }

  function AssetText(rows: seq<TransferRow>): string {
    RowsText([HEADER] + RecordsOf(rows))
  }

  predicate Blank(record: Record) {
    forall i :: 0 <= i < |record| ==> Text.Trim(record[i]) == []
  }

  /** One record as a row; a wrong number of fields or a bad port is an error. */
  function RowOf(record: Record): Option<TransferRow> {
    if |record| != |HEADER| then None
    else
      var port := ParseI64(record[2]);
      if port == None then None
      else Some(TransferRow(record[0], record[1], port.value, Text.NonEmpty(record[3]), SplitTags(record[4]),
                            Text.NonEmpty(record[5]), record[6]))
  }

  /** The rows of all but blank records, unless one of them is an error. */
  function RowsOf(records: seq<Record>): Option<seq<TransferRow>> {
    if records == [] then Some([])
    else
      var front := RowsOf(records[..|records| - 1]);
      var last := records[|records| - 1];
      if front == None then None
      else if Blank(last) then front
      else
        var row := RowOf(last);
        if row == None then None else Some(front.value + [row.value])
  }

  function ReadAssetCsv(input: string): Option<seq<TransferRow>> {
    var records := Read(input);
    if records == [] || records[0] != HEADER then None else RowsOf(records[1..])
  }

  lemma {:induction false} RowsOfNone(records: seq<Record>, n: nat)
    requires n <= |records| && RowsOf(records[..n]) == None
    ensures RowsOf(records) == None
    decreases |records| - n
  {
    if n < |records| {
      assert records[..n + 1][..n] == records[..n];
      RowsOfNone(records, n + 1);
    } else {
      assert records[..n] == records;
    }
  }

  method ReadAssets(input: string) returns (result: Option<seq<TransferRow>>)
    ensures result == ReadAssetCsv(input)
  {
    hide RowOf, Blank, Read;
    var records := ReadCsvRecords(input);
    if records == [] || records[0] != HEADER { return None; }
    var body := records[1..];
    var rows: seq<TransferRow> := [];
    for i := 0 to |body|
      invariant RowsOf(body[..i]) == Some(rows)
    {
      var record := body[i];
      assert body[..i + 1][..i] == body[..i];
      if !Blank(record) {
        var row := RowOf(record);
        if row == None {
          RowsOfNone(body, i + 1);
          return None;
        }
        rows := rows + [row.value];
      }
    }
    assert body[..|body|] == body;
    return Some(rows);
  }

  lemma {:induction false} RowsTextSnoc(records: seq<Record>, last: Record)
    ensures RowsText(records + [last]) == RowsText(records) + RowText(last)
  {
    hide RowText;
    if records != [] {
      assert (records + [last])[1..] == records[1..] + [last];
      RowsTextSnoc(records[1..], last);
    } else {
      assert (records + [last])[1..] == [];
    }
  }

  method WriteAssets(rows: seq<TransferRow>) returns (output: string)
    ensures output == AssetText(rows)
  {
    hide RecordOf, RowText;
    output := PushRow("", HEADER);
    RowsTextSnoc([], HEADER);
    for i := 0 to |rows|
      invariant output == AssetText(rows[..i])
    {
      RowsTextSnoc([HEADER] + RecordsOf(rows[..i]), RecordOf(rows[i]));
      assert [HEADER] + RecordsOf(rows[..i + 1]) == [HEADER] + RecordsOf(rows[..i]) + [RecordOf(rows[i])];
      output := PushRow(output, RecordOf(rows[i]));
    }
    assert rows[..|rows|] == rows;
  }

  // ---------- The normal form ----------

  function NormalRow(row: TransferRow): TransferRow {
    row.(description := Text.NonEmpty(OrEmpty(row.description)), tags := SplitTags(JoinTags(row.tags)),
         credential := Text.NonEmpty(OrEmpty(row.credential)))
  }

  function NormalRows(rows: seq<TransferRow>): seq<TransferRow> {
    seq(|rows|, i requires 0 <= i < |rows| => NormalRow(rows[i]))
  }

  lemma DecimalNotBlank(n: int)
    ensures Text.Trim(Decimal(n)) != []
  {
    TrimWithin(Decimal(n));
    if n < 0 { DigitsValue(-n); } else { DigitsValue(n); }
    assert !Text.IsSpace(Decimal(n)[0]);
  }

  lemma NotBlank(row: TransferRow)
    ensures !Blank(RecordOf(row))
  {
    hide Decimal, JoinTags, OrEmpty, Text.Trim;
    DecimalNotBlank(row.port);
    assert RecordOf(row)[2] == Decimal(row.port);
  }

  /** One row read back from its record. */
  lemma RowOfRecord(row: TransferRow)
    ensures RowOf(RecordOf(row)) == Some(NormalRow(row))
  {
    hide Decimal, ParseI64, SplitTags, JoinTags, Text.NonEmpty, OrEmpty;
    DecimalRoundTrip(row.port);
  }

  lemma {:induction false} RowsOfRecords(rows: seq<TransferRow>)
    ensures RowsOf(RecordsOf(rows)) == Some(NormalRows(rows))
  {
    hide RecordOf, RowOf, NormalRow, Blank;
    if rows != [] {
      var n := |rows| - 1;
      RowsOfRecords(rows[..n]);
      NotBlank(rows[n]);
      RowOfRecord(rows[n]);
      var records := RecordsOf(rows);
      assert records[..|records| - 1] == RecordsOf(rows[..n]) && records[|records| - 1] == RecordOf(rows[n]);
      assert NormalRows(rows) == NormalRows(rows[..n]) + [NormalRow(rows[n])];
    } else {
      assert RecordsOf(rows) == [] && NormalRows(rows) == [];
    }
  }

  /** Reading what was written gives each row in normal form. */
  lemma ReadWritten(rows: seq<TransferRow>)
    ensures ReadAssetCsv(AssetText(rows)) == Some(NormalRows(rows))
  {
    var records := [HEADER] + RecordsOf(rows);
    RecordRoundTrip(records);
    assert records[1..] == RecordsOf(rows);
    RowsOfRecords(rows);
  }

  /** A row is its own normal form exactly when it is canonical. */
  lemma NormalWhenCanonical(row: TransferRow)
    ensures NormalRow(row) == row <==> Canonical(row)
  {
    NonEmptyCanonical(OrEmpty(row.description));
    NonEmptyCanonical(OrEmpty(row.credential));
    SplitCanonical(JoinTags(row.tags));
    if Canonical(row) {
      SplitJoined(row.tags);
      Text.TrimFixpoint(OrEmpty(row.description));
      Text.TrimFixpoint(OrEmpty(row.credential));
    }
  }

  /** Rows survive writing and reading exactly when each is canonical: optional text trimmed and not
      empty, tags trimmed, not empty and free of separators. */
  lemma RowRoundTrip(rows: seq<TransferRow>)
    ensures ReadAssetCsv(AssetText(rows)) == Some(rows) <==> forall i :: 0 <= i < |rows| ==> Canonical(rows[i])
  {
    ReadWritten(rows);
    forall i | 0 <= i < |rows| ensures NormalRows(rows)[i] == rows[i] <==> Canonical(rows[i]) {
      NormalWhenCanonical(rows[i]);
    }
    assert NormalRows(rows) == rows <==> forall i :: 0 <= i < |rows| ==> NormalRows(rows)[i] == rows[i];
  }

  lemma {:induction false} ReadRowsCanonical(records: seq<Record>)
    requires RowsOf(records).Some?
    ensures forall i :: 0 <= i < |RowsOf(records).value| ==> Canonical(RowsOf(records).value[i])
  {
    if records != [] {
      var last := records[|records| - 1];
      ReadRowsCanonical(records[..|records| - 1]);
      if !Blank(last) {
        NonEmptyCanonical(last[3]);
        NonEmptyCanonical(last[5]);
        SplitCanonical(last[4]);
      }
    }
  }

  /** For every accepted text, writing what was read and reading it again changes nothing. */
  lemma ReadIsNormal(input: string)
    requires ReadAssetCsv(input).Some?
    ensures ReadAssetCsv(AssetText(ReadAssetCsv(input).value)) == ReadAssetCsv(input)
  {
    ReadRowsCanonical(Read(input)[1..]);
    RowRoundTrip(ReadAssetCsv(input).value);
  }
}
