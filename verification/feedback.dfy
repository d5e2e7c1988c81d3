/** The feedback stream: the service writes 38-byte records
    `[32-bit big-endian timestamp][16-bit big-endian token size][32-byte token]`
    back to back, and the client reads it 38 bytes at a time, unpacking each
    chunk with `unpack('N1n1H*')` (core.rb, the loop in `feedback`). */
module Feedback {
  import opened Results
  import opened Bytes

  /** Bytes per record on the wire, and the most one read returns. */
  const RecordSize := 38

  /** Bytes taken by the timestamp (`N`). */
  const TimestampSize := 4

  /** Where the token starts once the timestamp and the token-size field (`n`) are consumed. */
  const TokenOffset := 6

  /** One entry the client reports: the moment the token was marked invalid,
      in seconds since the epoch, and the device token as hexadecimal. */
  datatype Record = Record(timestamp: nat, token: string)

  /** A chunk too short to hold a timestamp: `unpack` yields `nil` for it and
      `Time.at(nil)` raises. */
  datatype FeedbackError = MissingTimestamp(chunk: seq<Byte>)

  /** The bytes `H*` renders. `N` consumes the first four; `n` consumes the next
      two only when both are there, and yields `nil` without consuming otherwise. */
  function TokenBytes(c: seq<Byte>): (t: seq<Byte>)
    requires |c| >= TimestampSize
    ensures |c| >= TokenOffset ==> t == c[TokenOffset..]
    ensures |c| < TokenOffset ==> t == c[TimestampSize..]
  {
    if |c| >= TokenOffset then c[TokenOffset..] else c[TimestampSize..]
  }

  /** `unpack('N1n1H*')` of one chunk returned by `read(38)`, followed by
      `Time.at` of the timestamp. */
  function UnpackChunk(c: seq<Byte>): (r: Result<Record, FeedbackError>)
    requires 0 < |c| <= RecordSize
    ensures r.Ok? <==> |c| >= TimestampSize
    ensures r.Ok? ==> r.value.timestamp < Pow256(TimestampSize)
    ensures r.Ok? ==> |r.value.token| <= 2 * (RecordSize - TokenOffset)
    ensures r.Ok? ==> forall i :: 0 <= i < |r.value.token| ==> IsHexDigit(r.value.token[i])
  {
    if |c| < TimestampSize then Err(MissingTimestamp(c))
    else Ok(Record(FromBE(c[..TimestampSize]), Hex(TokenBytes(c))))
  }

  /** A whole record reports the big-endian value of bytes 0..3 as timestamp
      and the 64-digit hexadecimal of bytes 6..37 as token. */
  lemma UnpackWholeRecord(c: seq<Byte>)
    requires |c| == RecordSize
    ensures UnpackChunk(c).Ok?
    ensures UnpackChunk(c).value.timestamp == FromBE(c[..TimestampSize])
    ensures |UnpackChunk(c).value.token| == 64
    ensures UnHex(UnpackChunk(c).value.token) == Some(c[TokenOffset..])
  {
    UnHexHex(c[TokenOffset..]);
  }

  /** The token-size field (bytes 4..5) is read and ignored: two records that
      differ only there decode identically. */
  lemma UnpackIgnoresTokenSize(c: seq<Byte>, d: seq<Byte>)
    requires |c| == |d| == RecordSize
    requires c[..TimestampSize] == d[..TimestampSize]
    requires c[TokenOffset..] == d[TokenOffset..]
    ensures UnpackChunk(c) == UnpackChunk(d)
  {
  }

  /** A record as the feedback service writes it. */
  datatype WireRecord = WireRecord(timestamp: nat, tokenSize: nat, token: seq<Byte>)

  /** The field widths of the wire format: a 32-bit timestamp, a 16-bit token
      size and a 32-byte token. */
  predicate WellFormed(w: WireRecord) {
    w.timestamp < Pow256(4) && w.tokenSize < Pow256(2) && |w.token| == 32
  }

  /** The 38 bytes the feedback service sends for one record. */
  function EncodeRecord(w: WireRecord): (r: seq<Byte>)
    requires WellFormed(w)
    ensures |r| == RecordSize
  {
    ToBE(w.timestamp, 4) + ToBE(w.tokenSize, 2) + w.token
  }

  /** What the client should report for a record: its timestamp and the
      hexadecimal of its token. */
  function Reported(w: WireRecord): Record {
    Record(w.timestamp, Hex(w.token))
  }

  /** Decoding one record the service wrote reports its timestamp and token. */
  lemma UnpackEncodeRecord(w: WireRecord)
    requires WellFormed(w)
    ensures UnpackChunk(EncodeRecord(w)) == Ok(Reported(w))
  {
    var c := EncodeRecord(w);
    assert c[..TimestampSize] == ToBE(w.timestamp, 4);
    assert c[TokenOffset..] == w.token;
  }

  /** Reading a whole stream: chunks of 38 bytes until the stream ends, the
      last chunk holding whatever is left. */
  function DecodeStream(s: seq<Byte>): (r: Result<seq<Record>, FeedbackError>)
    ensures r.Ok? <==> (|s| % RecordSize == 0 || |s| % RecordSize >= TimestampSize)
    ensures r.Ok? ==> |r.value| == (|s| + RecordSize - 1) / RecordSize
    decreases |s|
  {
    if |s| == 0 then Ok([])
    else
      var n := if |s| < RecordSize then |s| else RecordSize;
      ChunkArithmetic(|s|);
      match UnpackChunk(s[..n])
      case Err(e) => Err(e)
      case Ok(rec) =>
        match DecodeStream(s[n..])
        case Err(e) => Err(e)
        case Ok(rest) => Ok([rec] + rest)
  }

  /** Counting records: one more chunk than the stream after the first read. */
  lemma ChunkArithmetic(m: nat)
    requires m > 0
    ensures m < RecordSize ==> m % RecordSize == m && (m + RecordSize - 1) / RecordSize == 1
    ensures m >= RecordSize ==> (m - RecordSize) % RecordSize == m % RecordSize
    ensures m >= RecordSize ==>
      (m - RecordSize + RecordSize - 1) / RecordSize + 1 == (m + RecordSize - 1) / RecordSize
  {
  }

  /** The `i`-th whole record of a stream. */
  function Chunk(s: seq<Byte>, i: nat): (c: seq<Byte>)
    requires RecordSize * (i + 1) <= |s|
    ensures |c| == RecordSize
  {
    s[RecordSize * i..RecordSize * (i + 1)]
  }

  /** Dropping the first record shifts the record numbering by one. */
  lemma ChunkOfRest(s: seq<Byte>, i: nat)
    requires 0 < i && RecordSize * (i + 1) <= |s|
    ensures Chunk(s[RecordSize..], i - 1) == Chunk(s, i)
  {
    assert RecordSize * (i - 1) + RecordSize == RecordSize * i;
  }

  /** A stream of exactly k whole records yields k records, the i-th decoded
      from the i-th 38 bytes, in arrival order. */
  lemma {:induction false} DecodeWholeRecords(s: seq<Byte>)
    requires |s| % RecordSize == 0
    ensures DecodeStream(s).Ok?
    ensures |DecodeStream(s).value| == |s| / RecordSize
    ensures forall i :: 0 <= i < |s| / RecordSize ==>
      DecodeStream(s).value[i] == UnpackChunk(Chunk(s, i)).value
    decreases |s|
  {
    if |s| > 0 {
      var rest := s[RecordSize..];
      DecodeWholeRecords(rest);
      var rs := DecodeStream(s).value;
      assert rs == [UnpackChunk(s[..RecordSize]).value] + DecodeStream(rest).value;
      forall i | 0 <= i < |s| / RecordSize
        ensures rs[i] == UnpackChunk(Chunk(s, i)).value
      {
        if i == 0 {
          assert Chunk(s, 0) == s[..RecordSize];
        } else {
          ChunkOfRest(s, i);
        }
      }
    }
  }

  /** The bytes the feedback service sends for a list of records. */
  function EncodeStream(ws: seq<WireRecord>): (r: seq<Byte>)
    requires forall i :: 0 <= i < |ws| ==> WellFormed(ws[i])
    ensures |r| == RecordSize * |ws|
  {
    if |ws| == 0 then [] else EncodeRecord(ws[0]) + EncodeStream(ws[1..])
  }

  /** What the client should report for a list of records, in order. */
  function ReportedAll(ws: seq<WireRecord>): (r: seq<Record>)
    ensures |r| == |ws|
  {
    if |ws| == 0 then [] else [Reported(ws[0])] + ReportedAll(ws[1..])
  }

  /** Round trip: reading what the service wrote reports every record, in
      order, with nothing added or lost. */
  lemma {:induction false} DecodeEncodeStream(ws: seq<WireRecord>)
    requires forall i :: 0 <= i < |ws| ==> WellFormed(ws[i])
    ensures DecodeStream(EncodeStream(ws)) == Ok(ReportedAll(ws))
  {
    if |ws| > 0 {
      var s := EncodeStream(ws);
      assert s[..RecordSize] == EncodeRecord(ws[0]);
      assert s[RecordSize..] == EncodeStream(ws[1..]);
      UnpackEncodeRecord(ws[0]);
      DecodeEncodeStream(ws[1..]);
    }
  }
}
