/** The parsers of the terminal dashboard, as the inverse of the two reports. */
module Dashboard {
  import opened ByteStrings
  import opened Decimal
  import opened Frames
  import opened Encoder
  import Parser
  import CodecTheorems
  import opened StoreModel
  import opened Report

  datatype DashboardError = InvalidStats | InvalidInspect

  datatype DashboardStats = DashboardStats(
    totalKeys: u64,
    stringKeys: u64,
    listKeys: u64,
    expiringKeys: u64,
    listItems: u64,
    keyBytes: u64,
    payloadBytes: u64,
    estimatedBytes: u64,
    maxMemory: Option<u64>,
    policy: Bytes,
    expired: u64,
    evicted: u64,
    rejected: u64)

  datatype KeyRow = KeyRow(
    key: Str, typeName: Str, ttlSeconds: i64, payloadBytes: u64, estimatedBytes: u64, listItems: u64)

  type Parse<T> = Result<T, DashboardError>

  // ---- statistics ----

  /** `str::lines`: pieces ended by LF or by the end of the text, without their line break. */
  function Lines(text: Bytes): seq<Bytes>
    decreases |text|
  {
    if text == [] then []
    else
      var (line, rest) := Parser.SplitLine(text);
      [Parser.TrimCrlf(line)] + Lines(rest)
  }

  /** `split_once(':')` */
  function SplitColon(line: Bytes): Option<(Bytes, Bytes)> {
    if line == [] then None
    else if line[0] == COLON then Some(([], line[1..]))
    else
      match SplitColon(line[1..])
      case Some((name, value)) => Some(([line[0]] + name, value))
      case None => None
  }

  /** Fields by name; of two with one name the later counts. */
  function Fields(lines: seq<Bytes>): map<Bytes, Bytes> {
    if lines == [] then map[]
    else
      var last := SplitColon(lines[|lines| - 1]);
      var before := Fields(lines[..|lines| - 1]);
      if last.Some? then before[last.value.0 := last.value.1] else before
  }

  function StatText(fields: map<Bytes, Bytes>, name: string): Parse<Bytes> {
    if Ascii(name) in fields then Ok(fields[Ascii(name)]) else Err(InvalidStats)
  }

  function StatNumber(fields: map<Bytes, Bytes>, name: string): Parse<u64> {
    var text :- StatText(fields, name);
    match ParseU64(text) case Some(n) => Ok(n) case None => Err(InvalidStats)
  }

  function StatLimit(fields: map<Bytes, Bytes>, name: string): Parse<Option<u64>> {
    var text :- StatText(fields, name);
    if text == Ascii("none") then Ok(None)
    else match ParseU64(text) case Some(n) => Ok(Some(n)) case None => Err(InvalidStats)
  }

  function ParseStats(frame: Frame): Parse<DashboardStats> {
    if !frame.Bulk? || !ValidUtf8(frame.bytes) then Err(InvalidStats)
    else FromFields(Fields(Lines(frame.bytes)))
  }

  function FromFields(fields: map<Bytes, Bytes>): Parse<DashboardStats> {
    var totalKeys :- StatNumber(fields, "total_keys");
    var stringKeys :- StatNumber(fields, "string_keys");
    var listKeys :- StatNumber(fields, "list_keys");
    var expiringKeys :- StatNumber(fields, "expiring_keys");
    var listItems :- StatNumber(fields, "list_items");
    var keyBytes :- StatNumber(fields, "key_bytes");
    var payloadBytes :- StatNumber(fields, "payload_bytes");
    var estimatedBytes :- StatNumber(fields, "estimated_memory_bytes");
    var maxMemory :- StatLimit(fields, "max_memory_bytes");
    var policy :- StatText(fields, "eviction_policy");
    var expired :- StatNumber(fields, "expired_keys_cleaned");
    var evicted :- StatNumber(fields, "evicted_keys");
    var rejected :- StatNumber(fields, "rejected_writes");
    Ok(DashboardStats(totalKeys, stringKeys, listKeys, expiringKeys, listItems, keyBytes, payloadBytes,
         estimatedBytes, maxMemory, policy, expired, evicted, rejected))
  }

  // ---- key inspection ----

  function FrameToString(frame: Frame): Parse<Str> {
    if frame.Bulk? && ValidUtf8(frame.bytes) then Ok(frame.bytes) else Err(InvalidInspect)
  }

  function FrameToI64(frame: Frame): Parse<i64> {
    if frame.Integer? then Ok(frame.n) else Err(InvalidInspect)
  }

  function FrameToUsize(frame: Frame): Parse<u64> {
    var n :- FrameToI64(frame);
    if n >= 0 then Ok(n) else Err(InvalidInspect)
  }

  function ParseKeyRow(frame: Frame): Parse<KeyRow> {
    if !frame.Array? || |frame.items| != 6 then Err(InvalidInspect)
    else
      var key :- FrameToString(frame.items[0]);
      var typeName :- FrameToString(frame.items[1]);
      var ttlSeconds :- FrameToI64(frame.items[2]);
      var payloadBytes :- FrameToUsize(frame.items[3]);
      var estimatedBytes :- FrameToUsize(frame.items[4]);
      var listItems :- FrameToUsize(frame.items[5]);
      Ok(KeyRow(key, typeName, ttlSeconds, payloadBytes, estimatedBytes, listItems))
  }

  function ParseRows(frames: seq<Frame>): Parse<seq<KeyRow>> {
    if frames == [] then Ok([])
    else
      var row :- ParseKeyRow(frames[0]);
      var rows :- ParseRows(frames[1..]);
      Ok([row] + rows)
  }

  function ParseKeys(frame: Frame): Parse<seq<KeyRow>> {
    if frame.Array? then ParseRows(frame.items) else Err(InvalidInspect)
  }

  /** What a row says, whether or not it could be sent as it is. */
  predicate Shows(row: KeyRow, truth: KeyInspection) {
    && row.key == truth.key && row.typeName == truth.typeName && row.ttlSeconds == truth.ttlSeconds
    && row.payloadBytes == truth.payloadBytes && row.estimatedBytes == truth.estimatedBytes
    && row.listItems == truth.listItems
  }

  predicate Sendable(truth: KeyInspection) {
    truth.payloadBytes <= I64_MAX && truth.estimatedBytes <= I64_MAX && truth.listItems <= I64_MAX
  }

  lemma RowRoundTrip(truth: KeyInspection)
    ensures var parsed := ParseKeyRow(InspectionFrame(truth));
            parsed.Ok? && (Shows(parsed.value, truth) <==> Sendable(truth))
  {
  }

  /** Every inspection reply parses, row by row, and a row is recovered exactly when its
      sizes fit in a reply. */
  lemma {:induction false} InspectionRoundTrip(rows: seq<KeyInspection>)
    ensures var parsed := ParseKeys(Array(InspectionFrames(rows)));
            && parsed.Ok? && |parsed.value| == |rows|
            && forall i :: 0 <= i < |rows| ==> (Shows(parsed.value[i], rows[i]) <==> Sendable(rows[i]))
  {
    if rows != [] {
      var frames := InspectionFrames(rows);
      assert frames[1..] == InspectionFrames(rows[1..]) && frames[0] == InspectionFrame(rows[0]);
      RowRoundTrip(rows[0]);
      InspectionRoundTrip(rows[1..]);
    }
  }

  // ---- the statistics text, line by line ----

  predicate IsLine(line: Bytes) {
    LF !in line
  }

  lemma {:induction false} LinesOfJoined(lines: seq<Bytes>)
    requires forall i :: 0 <= i < |lines| ==> IsLine(lines[i])
    ensures Lines(Joined(lines)) == lines
  {
    if lines != [] {
      var line, tail := lines[0], Joined(lines[1..]);
      CodecTheorems.SplitAfterFeed(line + [CR], tail);
      CodecTheorems.TrimWhole(line);
      assert line + CRLF + tail == (line + [CR]) + [LF] + tail && line + [CR] + [LF] == line + CRLF;
      LinesOfJoined(lines[1..]);
      assert lines == [line] + lines[1..];
    }
  }

  lemma {:induction false} SplitField(name: Bytes, value: Bytes)
    requires COLON !in name
    ensures SplitColon(name + [COLON] + value) == Some((name, value))
  {
    var s := name + [COLON] + value;
    if name == [] {
      assert s[1..] == value;
    } else {
      assert s[0] == name[0] && s[1..] == name[1..] + [COLON] + value;
      SplitField(name[1..], value);
      assert [name[0]] + name[1..] == name;
    }
  }

  /** The field at `i` is found when no later line repeats its name. */
  lemma {:induction false} FieldFound(lines: seq<Bytes>, i: nat, name: Bytes, value: Bytes)
    requires i < |lines| && SplitColon(lines[i]) == Some((name, value))
    requires forall j :: i < j < |lines| ==> SplitColon(lines[j]).None? || SplitColon(lines[j]).value.0 != name
    ensures name in Fields(lines) && Fields(lines)[name] == value
  {
    if i < |lines| - 1 {
      FieldFound(lines[..|lines| - 1], i, name, value);
    }
  }

  // ---- the statistics report ----

  /** Printable ASCII without a colon. */
  predicate IsTitle(text: string) {
    forall i :: 0 <= i < |text| ==> ' ' <= text[i] <= '~' && text[i] != ':'
  }

  lemma TitleIsPlain(text: string)
    requires IsTitle(text)
    ensures LF !in Ascii(text) && COLON !in Ascii(text)
  {
    AsciiAt(text);
  }

  lemma {:induction false} NoColonNoField(line: Bytes)
    requires COLON !in line
    ensures SplitColon(line) == None
  {
    if line != [] {
      NoColonNoField(line[1..]);
    }
  }

  /** Titles are told apart by their length and first letter: the position of a title. */
  function Place(name: Bytes): nat {
    if name == [] then 0
    else
      match (|name|, name[0])
      case (10, 116) => 1
      case (11, _) => 2
      case (9, 108) => 3
      case (13, 101) => 4
      case (10, _) => 5
      case (9, _) => 8
      case (13, _) => 9
      case (22, _) => 10
      case (16, _) => 11
      case (15, 101) => 12
      case (20, _) => 15
      case (12, _) => 16
      case (15, _) => 17
      case _ => 0
  }

  lemma PlaceOf(text: string)
    requires text != [] && ' ' <= text[0] <= '~'
    ensures Ascii(text) != [] && Ascii(text)[0] as int == text[0] as int
  {
    AsciiAt(text);
  }

  ghost predicate InPlace(s: StoreStats, i: nat) {
    i < |StatLines(s)| && (StatLines(s)[i].Field? ==> Place(Ascii(StatLines(s)[i].text)) == i)
  }

  lemma FirstPlaces(s: StoreStats)
    ensures forall i :: 0 <= i < 9 ==> InPlace(s, i)
  {
    PlaceOf("total_keys");
    PlaceOf("string_keys");
    PlaceOf("list_keys");
    PlaceOf("expiring_keys");
    PlaceOf("list_items");
    PlaceOf("key_bytes");
  }

  lemma LastPlaces(s: StoreStats)
    ensures forall i :: 9 <= i < |StatLines(s)| ==> InPlace(s, i)
  {
    PlaceOf("payload_bytes");
    PlaceOf("estimated_memory_bytes");
    PlaceOf("max_memory_bytes");
    PlaceOf("eviction_policy");
    PlaceOf("expired_keys_cleaned");
    PlaceOf("evicted_keys");
    PlaceOf("rejected_writes");
  }

  lemma KeyspaceTitles()
    ensures IsTitle("# Keyspace") && IsTitle("total_keys") && IsTitle("string_keys") && IsTitle("list_keys")
    ensures IsTitle("expiring_keys") && IsTitle("list_items")
  {
  }

  lemma MemoryTitles()
    ensures IsTitle("# Memory") && IsTitle("key_bytes") && IsTitle("payload_bytes")
    ensures IsTitle("estimated_memory_bytes") && IsTitle("max_memory_bytes") && IsTitle("eviction_policy")
  {
  }

  lemma CounterTitles()
    ensures IsTitle("# Counters") && IsTitle("expired_keys_cleaned") && IsTitle("evicted_keys")
    ensures IsTitle("rejected_writes")
  {
  }

  lemma TitlesArePlain(s: StoreStats)
    ensures forall i :: 0 <= i < |StatLines(s)| && !StatLines(s)[i].Blank? ==> IsTitle(StatLines(s)[i].text)
  {
    KeyspaceTitles();
    MemoryTitles();
    CounterTitles();
  }

  /** Numbers, policy names and `none` hold no line break. */
  lemma ValuesArePlain(s: StoreStats)
    ensures forall i :: 0 <= i < |StatLines(s)| && StatLines(s)[i].Field? ==>
              LF !in StatLines(s)[i].value && IsAscii(StatLines(s)[i].value)
  {
    forall n: nat
      ensures LF !in PrintNat(n) && IsAscii(PrintNat(n))
    {
      PrintIsPlain(n);
    }
    NoFeed("none");
    NoFeed("noeviction");
    NoFeed("allkeys-random");
  }

  lemma NoFeed(text: string)
    requires IsTitle(text)
    ensures LF !in Ascii(text)
  {
    TitleIsPlain(text);
  }

  lemma {:induction false} JoinedIsAscii(lines: seq<Bytes>)
    requires forall i :: 0 <= i < |lines| ==> IsAscii(lines[i])
    ensures IsAscii(Joined(lines))
  {
    if lines != [] {
      JoinedIsAscii(lines[1..]);
    }
  }

  function FieldOf(line: StatLine): Option<(Bytes, Bytes)> {
    if !line.Field? then None
    else
      var name: Bytes := Ascii(line.text);
      Some((name, line.value))
  }

  lemma SplitRendered(line: StatLine)
    requires !line.Blank? ==> IsTitle(line.text)
    ensures SplitColon(Render(line)) == FieldOf(line)
  {
    if !line.Blank? {
      TitleIsPlain(line.text);
    }
    match line {
      case Heading(text) => NoColonNoField(Ascii(text));
      case Field(text, value) => SplitField(Ascii(text), value);
      case Blank =>
    }
  }

  /** A report whose fields can be told apart and whose lines hold no line break. */
  ghost predicate GoodReport(lines: seq<StatLine>) {
    forall i :: 0 <= i < |lines| ==> GoodLine(lines[i], i)
  }

  ghost predicate GoodLine(line: StatLine, i: nat) {
    && (!line.Blank? ==> IsTitle(line.text))
    && (line.Field? ==> Place(Ascii(line.text)) == i && LF !in line.value && IsAscii(line.value))
  }

  lemma ReportIsGood(s: StoreStats)
    ensures GoodReport(StatLines(s))
  {
    TitlesArePlain(s);
    ValuesArePlain(s);
    FirstPlaces(s);
    LastPlaces(s);
    forall i | 0 <= i < |StatLines(s)|
      ensures GoodLine(StatLines(s)[i], i)
    {
      assert InPlace(s, i);
    }
  }

  /** Each field of a report is found under its title. */
  lemma FieldAt(lines: seq<StatLine>, i: nat)
    requires GoodReport(lines) && i < |lines| && lines[i].Field?
    ensures var fields := Fields(Rendered(lines));
            Ascii(lines[i].text) in fields && fields[Ascii(lines[i].text)] == lines[i].value
  {
    forall j | 0 <= j < |lines|
      ensures SplitColon(Rendered(lines)[j]) == FieldOf(lines[j])
      ensures lines[j].Field? ==> Place(Ascii(lines[j].text)) == j
    {
      assert GoodLine(lines[j], j);
      SplitRendered(lines[j]);
    }
    FieldFound(Rendered(lines), i, Ascii(lines[i].text), lines[i].value);
  }

  predicate FitsMachine(s: StoreStats) {
    && s.totalKeys <= U64_MAX && s.stringKeys <= U64_MAX && s.listKeys <= U64_MAX && s.expiringKeys <= U64_MAX
    && s.keyBytes <= U64_MAX && s.payloadBytes <= U64_MAX && s.estimatedBytes <= U64_MAX
    && s.listItems <= U64_MAX && (s.maxMemory.Some? ==> s.maxMemory.value <= U64_MAX)
    && s.expired <= U64_MAX && s.evicted <= U64_MAX && s.rejected <= U64_MAX
  }

  lemma NumberAt(lines: seq<StatLine>, i: nat, name: string, n: nat)
    requires GoodReport(lines) && i < |lines| && lines[i] == Field(name, PrintNat(n)) && n <= U64_MAX
    ensures StatNumber(Fields(Rendered(lines)), name) == Ok(n)
  {
    FieldAt(lines, i);
    PrintParseU64(n);
  }

  lemma NumberIsNotNone(n: nat)
    ensures PrintNat(n) != Ascii("none")
  {
    AsciiAt("none");
    assert !IsDigit(Ascii("none")[0]) && IsDigit(PrintNat(n)[0]);
  }

  lemma LimitAt(lines: seq<StatLine>, i: nat, limit: Option<nat>)
    requires GoodReport(lines) && i < |lines| && lines[i] == Field("max_memory_bytes", LimitText(limit))
    requires limit.Some? ==> limit.value <= U64_MAX
    ensures StatLimit(Fields(Rendered(lines)), "max_memory_bytes") == Ok(limit)
  {
    FieldAt(lines, i);
    if limit.Some? {
      PrintParseU64(limit.value);
      NumberIsNotNone(limit.value);
    }
  }

  lemma {:induction false} ReportIsText(lines: seq<StatLine>)
    requires GoodReport(lines)
    ensures ValidUtf8(Joined(Rendered(lines)))
    ensures Lines(Joined(Rendered(lines))) == Rendered(lines)
  {
    forall i | 0 <= i < |lines|
      ensures IsLine(Rendered(lines)[i]) && IsAscii(Rendered(lines)[i])
    {
      assert GoodLine(lines[i], i);
      if !lines[i].Blank? {
        TitleIsPlain(lines[i].text);
      }
    }
    LinesOfJoined(Rendered(lines));
    JoinedIsAscii(Rendered(lines));
    AsciiIsUtf8(Joined(Rendered(lines)));
  }

  /** What the parser has to find in the fields of the report on `s`. */
  ghost predicate KeyspaceIn(fields: map<Bytes, Bytes>, s: StoreStats)
    requires FitsMachine(s)
  {
    && StatNumber(fields, "total_keys") == Ok(s.totalKeys)
    && StatNumber(fields, "string_keys") == Ok(s.stringKeys)
    && StatNumber(fields, "list_keys") == Ok(s.listKeys)
    && StatNumber(fields, "expiring_keys") == Ok(s.expiringKeys)
    && StatNumber(fields, "list_items") == Ok(s.listItems)
  }

  ghost predicate MemoryIn(fields: map<Bytes, Bytes>, s: StoreStats)
    requires FitsMachine(s)
  {
    && StatNumber(fields, "key_bytes") == Ok(s.keyBytes)
    && StatNumber(fields, "payload_bytes") == Ok(s.payloadBytes)
    && StatNumber(fields, "estimated_memory_bytes") == Ok(s.estimatedBytes)
    && StatLimit(fields, "max_memory_bytes") == Ok(s.maxMemory)
    && StatText(fields, "eviction_policy") == Ok(s.policy.Name())
  }

  ghost predicate CountersIn(fields: map<Bytes, Bytes>, s: StoreStats)
    requires FitsMachine(s)
  {
    && StatNumber(fields, "expired_keys_cleaned") == Ok(s.expired)
    && StatNumber(fields, "evicted_keys") == Ok(s.evicted)
    && StatNumber(fields, "rejected_writes") == Ok(s.rejected)
  }

  lemma KeyspaceFound(s: StoreStats, lines: seq<StatLine>)
    requires FitsMachine(s) && GoodReport(lines) && |lines| == 18
    requires lines[1] == Field("total_keys", PrintNat(s.totalKeys))
    requires lines[2] == Field("string_keys", PrintNat(s.stringKeys))
    requires lines[3] == Field("list_keys", PrintNat(s.listKeys))
    requires lines[4] == Field("expiring_keys", PrintNat(s.expiringKeys))
    requires lines[5] == Field("list_items", PrintNat(s.listItems))
    ensures KeyspaceIn(Fields(Rendered(lines)), s)
  {
    NumberAt(lines, 1, "total_keys", s.totalKeys);
    NumberAt(lines, 2, "string_keys", s.stringKeys);
    NumberAt(lines, 3, "list_keys", s.listKeys);
    NumberAt(lines, 4, "expiring_keys", s.expiringKeys);
    NumberAt(lines, 5, "list_items", s.listItems);
  }

  lemma MemoryFound(s: StoreStats, lines: seq<StatLine>)
    requires FitsMachine(s) && GoodReport(lines) && |lines| == 18
    requires lines[8] == Field("key_bytes", PrintNat(s.keyBytes))
    requires lines[9] == Field("payload_bytes", PrintNat(s.payloadBytes))
    requires lines[10] == Field("estimated_memory_bytes", PrintNat(s.estimatedBytes))
    requires lines[11] == Field("max_memory_bytes", LimitText(s.maxMemory))
    requires lines[12] == Field("eviction_policy", s.policy.Name())
    ensures MemoryIn(Fields(Rendered(lines)), s)
  {
    NumberAt(lines, 8, "key_bytes", s.keyBytes);
    NumberAt(lines, 9, "payload_bytes", s.payloadBytes);
    NumberAt(lines, 10, "estimated_memory_bytes", s.estimatedBytes);
    LimitAt(lines, 11, s.maxMemory);
    FieldAt(lines, 12);
  }

  lemma CountersFound(s: StoreStats, lines: seq<StatLine>)
    requires FitsMachine(s) && GoodReport(lines) && |lines| == 18
    requires lines[15] == Field("expired_keys_cleaned", PrintNat(s.expired))
    requires lines[16] == Field("evicted_keys", PrintNat(s.evicted))
    requires lines[17] == Field("rejected_writes", PrintNat(s.rejected))
    ensures CountersIn(Fields(Rendered(lines)), s)
  {
    NumberAt(lines, 15, "expired_keys_cleaned", s.expired);
    NumberAt(lines, 16, "evicted_keys", s.evicted);
    NumberAt(lines, 17, "rejected_writes", s.rejected);
  }

  lemma FromFoundFields(fields: map<Bytes, Bytes>, s: StoreStats)
    requires FitsMachine(s) && KeyspaceIn(fields, s) && MemoryIn(fields, s) && CountersIn(fields, s)
    ensures FromFields(fields) ==
            Ok(DashboardStats(s.totalKeys, s.stringKeys, s.listKeys, s.expiringKeys, s.listItems, s.keyBytes,
                 s.payloadBytes, s.estimatedBytes, s.maxMemory, s.policy.Name(), s.expired, s.evicted, s.rejected))
  {
  }

  lemma FoundOnKeyspace(s: StoreStats)
    requires FitsMachine(s)
    ensures KeyspaceIn(Fields(Rendered(StatLines(s))), s)
  {
    ReportIsGood(s);
    KeyspaceFound(s, StatLines(s));
  }

  lemma FoundOnMemory(s: StoreStats)
    requires FitsMachine(s)
    ensures MemoryIn(Fields(Rendered(StatLines(s))), s)
  {
    ReportIsGood(s);
    MemoryFound(s, StatLines(s));
  }

  lemma FoundOnCounters(s: StoreStats)
    requires FitsMachine(s)
    ensures CountersIn(Fields(Rendered(StatLines(s))), s)
  {
    ReportIsGood(s);
    CountersFound(s, StatLines(s));
  }

  /** The dashboard reads back every field of every statistics report. */
  lemma StatsRoundTrip(s: StoreStats)
    requires FitsMachine(s)
    ensures ParseStats(Bulk(FormatStats(s))) ==
            Ok(DashboardStats(s.totalKeys, s.stringKeys, s.listKeys, s.expiringKeys, s.listItems, s.keyBytes,
                 s.payloadBytes, s.estimatedBytes, s.maxMemory, s.policy.Name(), s.expired, s.evicted, s.rejected))
  {
    var fields := Fields(Rendered(StatLines(s)));
    FoundOnKeyspace(s);
    FoundOnMemory(s);
    FoundOnCounters(s);
    FromFoundFields(fields, s);
    ReportFields(s);
  }

  lemma ReportFields(s: StoreStats)
    ensures ValidUtf8(FormatStats(s))
    ensures Fields(Lines(FormatStats(s))) == Fields(Rendered(StatLines(s)))
  {
    ReportIsGood(s);
    ReportIsText(StatLines(s));
  }
}
