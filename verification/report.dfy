/** The two reports of the server, statistics and key inspection, as the command layer
    prints them. */
module Report {
  import opened ByteStrings
  import opened Decimal
  import opened Encoder
  import opened Frames
  import opened StoreModel

  /** Lines, each ended by CRLF. */
  function Joined(lines: seq<Bytes>): Bytes {
    if lines == [] then [] else lines[0] + CRLF + Joined(lines[1..])
  }

  datatype StatLine = Heading(text: string) | Field(text: string, value: Bytes) | Blank

  function Render(line: StatLine): Bytes {
    match line
    case Heading(text) => Ascii(text)
    case Field(text, value) => Ascii(text) + [COLON] + value
    case Blank => []
  }

  function Rendered(lines: seq<StatLine>): (r: seq<Bytes>)
    ensures |r| == |lines| && forall i :: 0 <= i < |lines| ==> r[i] == Render(lines[i])
  {
    seq(|lines|, i requires 0 <= i < |lines| => Render(lines[i]))
  }

  function LimitText(limit: Option<nat>): Bytes {
    match limit case Some(n) => PrintNat(n) case None => Ascii("none")
  }

  function StatLines(s: StoreStats): seq<StatLine> {
    [Heading("# Keyspace"),
     Field("total_keys", PrintNat(s.totalKeys)),
     Field("string_keys", PrintNat(s.stringKeys)),
     Field("list_keys", PrintNat(s.listKeys)),
     Field("expiring_keys", PrintNat(s.expiringKeys)),
     Field("list_items", PrintNat(s.listItems)),
     Blank,
     Heading("# Memory"),
     Field("key_bytes", PrintNat(s.keyBytes)),
     Field("payload_bytes", PrintNat(s.payloadBytes)),
     Field("estimated_memory_bytes", PrintNat(s.estimatedBytes)),
     Field("max_memory_bytes", LimitText(s.maxMemory)),
     Field("eviction_policy", s.policy.Name()),
     Blank,
     Heading("# Counters"),
     Field("expired_keys_cleaned", PrintNat(s.expired)),
     Field("evicted_keys", PrintNat(s.evicted)),
     Field("rejected_writes", PrintNat(s.rejected))]
  }

  function FormatStats(s: StoreStats): Bytes {
    Joined(Rendered(StatLines(s)))
  }

  /** A size as a reply, capped at the largest one a reply can carry. */
  function SizeFrame(n: nat): Frame {
    Integer(Min(n, I64_MAX))
  }

  function InspectionFrame(row: KeyInspection): Frame {
    Array([Bulk(row.key), Bulk(row.typeName), Integer(row.ttlSeconds), SizeFrame(row.payloadBytes),
           SizeFrame(row.estimatedBytes), SizeFrame(row.listItems)])
  }

  function InspectionFrames(rows: seq<KeyInspection>): seq<Frame> {
    seq(|rows|, i requires 0 <= i < |rows| => InspectionFrame(rows[i]))
  }
}
