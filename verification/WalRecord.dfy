/** Write-ahead log records, their byte format, and the scan that reads a log file back. */
module WalRecord {
  import opened KeyOrder
  import opened Bytes

  type LSN = nat

  type TxnID = nat

  const OP_INSERT: Byte := 0
  const OP_UPDATE: Byte := 1
  const OP_DELETE: Byte := 2

  datatype Row = Row(table: Bytes, key: Bytes)

  datatype LogRecord =
    | BeginRec(lsn: LSN, txn: TxnID, prev: LSN, timestamp: nat)
    | WriteRec(lsn: LSN, txn: TxnID, prev: LSN, undoNext: LSN, op: Byte, row: Row, before: Bytes, after: Bytes)
    | CommitRec(lsn: LSN, txn: TxnID, prev: LSN)
    | AbortRec(lsn: LSN, txn: TxnID, prev: LSN)
    | CLRRec(lsn: LSN, txn: TxnID, prev: LSN, undoNext: LSN)

  /** A checksum; nothing about it is used except that it is a function into 32 bits. */
  type U32 = n: nat | n < UINT32_LIMIT

  const HDR_FIXED := 33

  // ---------------------------------------------------------------- format

  function TypeCode(rec: LogRecord): Byte {
    match rec
    case BeginRec(_, _, _, _) => 0x01
    case WriteRec(_, _, _, _, _, _, _, _) => 0x02
    case CommitRec(_, _, _) => 0x03
    case AbortRec(_, _, _) => 0x04
    case CLRRec(_, _, _, _) => 0x05
  }

  function WriteHead(rec: LogRecord): (b: Bytes)
    requires rec.WriteRec?
    ensures |b| == 21
  {
    LE(rec.undoNext, 8) + [rec.op] + LE(|rec.row.table|, 2) + LE(|rec.row.key|, 2)
    + LE(|rec.before|, 4) + LE(|rec.after|, 4)
  }

  function WriteTail(rec: LogRecord): Bytes
    requires rec.WriteRec?
  {
    rec.row.table + rec.row.key + rec.before + rec.after
  }

  function Body(rec: LogRecord): Bytes {
    match rec
    case BeginRec(_, _, _, timestamp) => LE(timestamp, 8)
    case WriteRec(_, _, _, _, _, _, _, _) => WriteHead(rec) + WriteTail(rec)
    case CommitRec(_, _, prev) => LE(prev, 8)
    case AbortRec(_, _, prev) => LE(prev, 8)
    case CLRRec(_, _, _, undoNext) => LE(undoNext, 8)
  }

  function Payload(rec: LogRecord): Bytes {
    [TypeCode(rec)] + LE(rec.lsn, 8) + LE(rec.txn, 8) + LE(rec.prev, 8) + Body(rec)
  }

  function Encode(rec: LogRecord, crc: Bytes -> U32): Bytes {
    LE(8 + |Payload(rec)|, 4) + LE(crc(Payload(rec)), 4) + Payload(rec)
  }

  function DecodeWrite(lsn: LSN, txn: TxnID, prev: LSN, body: Bytes): Option<LogRecord> {
    if |body| < 21 then None
    else
      var tableLen, keyLen := FromLE(body[9..11]), FromLE(body[11..13]);
      var beforeLen, afterLen := FromLE(body[13..17]), FromLE(body[17..21]);
      var k := 21 + tableLen;
      var b := k + keyLen;
      var a := b + beforeLen;
      if a + afterLen > |body| then None
      else Some(WriteRec(lsn, txn, prev, FromLE(body[..8]), body[8], Row(body[21..k], body[k..b]),
                         body[b..a], body[a..a + afterLen]))
  }

  function DecodeBody(code: Byte, lsn: LSN, txn: TxnID, prev: LSN, body: Bytes): Option<LogRecord> {
    if code == 0x02 then DecodeWrite(lsn, txn, prev, body)
    else if code == 0x01 then if |body| < 8 then None else Some(BeginRec(lsn, txn, prev, FromLE(body[..8])))
    else if code == 0x03 then if |body| < 8 then None else Some(CommitRec(lsn, txn, prev))
    else if code == 0x04 then if |body| < 8 then None else Some(AbortRec(lsn, txn, prev))
    else if code == 0x05 then if |body| < 8 then None else Some(CLRRec(lsn, txn, prev, FromLE(body[..8])))
    else None
  }

  /** Decode one buffer. Every caller has already read the length field and found that it covers a
      header; a shorter one is answered like any other damaged record. */
  function Decode(b: Bytes, crc: Bytes -> U32): Option<LogRecord> {
    if |b| < HDR_FIXED then None
    else
      var total := FromLE(b[..4]);
      if total > |b| || total < HDR_FIXED then None
      else if FromLE(b[4..8]) != crc(b[8..total]) then None
      else DecodeBody(b[8], FromLE(b[9..17]), FromLE(b[17..25]), FromLE(b[25..33]), b[33..total])
  }

  /** The lengths and numbers of `rec` fit the fields that hold them. */
  ghost predicate Encodable(rec: LogRecord) {
    && rec.lsn < UINT64_LIMIT && rec.txn < UINT64_LIMIT && rec.prev < UINT64_LIMIT
    && 8 + |Payload(rec)| < UINT32_LIMIT
    && match rec {
         case BeginRec(_, _, _, timestamp) => timestamp < UINT64_LIMIT
         case WriteRec(_, _, _, undoNext, _, row, before, after) =>
           && undoNext < UINT64_LIMIT
           && |row.table| < UINT16_LIMIT && |row.key| < UINT16_LIMIT
           && |before| < UINT32_LIMIT && |after| < UINT32_LIMIT
         case CLRRec(_, _, _, undoNext) => undoNext < UINT64_LIMIT
         case _ => true
       }
  }

  // ---------------------------------------------------------------- round trip

  /** A buffer that starts with one field: read it, and what is left. */
  lemma Field(n: nat, w: nat, rest: Bytes, s: Bytes)
    requires n < Pow256(w) && s == LE(n, w) + rest
    ensures |s| == w + |rest| && FromLE(s[..w]) == n && s[w..] == rest
  {
    ReadBack(n, w, rest);
  }

  lemma Slices(s: Bytes, i: nat, j: nat, k: nat)
    requires i <= j <= k <= |s|
    ensures s[i..][..j - i] == s[i..j] && s[i..][j - i..] == s[j..]
    ensures s[j..][..k - j] == s[j..k]
  {
  }

  lemma WriteHeadBack(rec: LogRecord, tail: Bytes, s: Bytes)
    requires rec.WriteRec? && Encodable(rec) && s == WriteHead(rec) + tail
    ensures |s| == 21 + |tail|
    ensures FromLE(s[..8]) == rec.undoNext && s[8] == rec.op
    ensures FromLE(s[9..11]) == |rec.row.table| && FromLE(s[11..13]) == |rec.row.key|
    ensures FromLE(s[13..17]) == |rec.before| && FromLE(s[17..21]) == |rec.after|
    ensures s[21..] == tail
  {
    Pow256Values();
    var r5 := LE(|rec.after|, 4) + tail;
    var r4 := LE(|rec.before|, 4) + r5;
    var r3 := LE(|rec.row.key|, 2) + r4;
    var r2 := LE(|rec.row.table|, 2) + r3;
    assert s == LE(rec.undoNext, 8) + ([rec.op] + r2);
    Field(rec.undoNext, 8, [rec.op] + r2, s);
    assert s[9..] == r2;
    Field(|rec.row.table|, 2, r3, r2);
    Slices(s, 9, 11, 11);
    Field(|rec.row.key|, 2, r4, r3);
    Slices(s, 11, 13, 13);
    Field(|rec.before|, 4, r5, r4);
    Slices(s, 13, 17, 17);
    Field(|rec.after|, 4, tail, r5);
    Slices(s, 17, 21, 21);
  }

  lemma FourParts(h: Bytes, a: Bytes, b: Bytes, c: Bytes, d: Bytes, s: Bytes)
    requires s == h + (a + b + c + d)
    ensures var i := |h| + |a|;
            var j := i + |b|;
            var k := j + |c|;
            && |s| == k + |d|
            && s[|h|..i] == a && s[i..j] == b && s[j..k] == c && s[k..k + |d|] == d
  {
  }

  lemma WriteBack(rec: LogRecord)
    requires rec.WriteRec? && Encodable(rec)
    ensures DecodeWrite(rec.lsn, rec.txn, rec.prev, Body(rec)) == Some(rec)
  {
    WriteHeadBack(rec, WriteTail(rec), Body(rec));
    FourParts(WriteHead(rec), rec.row.table, rec.row.key, rec.before, rec.after, Body(rec));
  }

  lemma BodyBack(rec: LogRecord)
    requires Encodable(rec)
    ensures DecodeBody(TypeCode(rec), rec.lsn, rec.txn, rec.prev, Body(rec)) == Some(rec)
  {
    Pow256Values();
    match rec {
      case WriteRec(_, _, _, _, _, _, _, _) => WriteBack(rec);
      case BeginRec(_, _, _, timestamp) => Field(timestamp, 8, [], Body(rec));
      case CLRRec(_, _, _, undoNext) => Field(undoNext, 8, [], Body(rec));
      case _ =>
    }
  }

  /** A field in the middle of a buffer. */
  lemma FieldAt(pre: Bytes, n: nat, w: nat, rest: Bytes, s: Bytes)
    requires n < Pow256(w) && s == pre + (LE(n, w) + rest)
    ensures |s| >= |pre| + w && FromLE(s[|pre|..|pre| + w]) == n
  {
    FromLEInverse(n, w);
    assert s[|pre|..|pre| + w] == LE(n, w);
  }

  lemma FiveParts(a: Bytes, b: Bytes, c: Bytes, d: Bytes, e: Bytes, s: Bytes)
    requires s == a + b + c + d + e
    ensures s == a + (b + (c + d + e)) && s == (a + b) + (c + (d + e)) && s == (a + b + c) + (d + e)
    ensures s[|a| + |b| + |c| + |d|..] == e
  {
  }

  lemma PayloadBack(rec: LogRecord, p: Bytes)
    requires Encodable(rec) && p == Payload(rec)
    ensures |p| >= 25 && p[0] == TypeCode(rec)
    ensures FromLE(p[1..9]) == rec.lsn && FromLE(p[9..17]) == rec.txn && FromLE(p[17..25]) == rec.prev
    ensures p[25..] == Body(rec)
  {
    Pow256Values();
    var t, a, b, c, e := [TypeCode(rec)], LE(rec.lsn, 8), LE(rec.txn, 8), LE(rec.prev, 8), Body(rec);
    FiveParts(t, a, b, c, e, p);
    FieldAt(t, rec.lsn, 8, b + c + e, p);
    FieldAt(t + a, rec.txn, 8, c + e, p);
    FieldAt(t + a + b, rec.prev, 8, e, p);
  }

  lemma ThreeParts(a: Bytes, b: Bytes, c: Bytes, s: Bytes)
    requires s == a + b + c
    ensures s[..|a|] == a && s[|a|..|a| + |b|] == b && s[|a| + |b|..] == c
  {
  }

  lemma EncodeHead(rec: LogRecord, crc: Bytes -> U32, s: Bytes)
    requires Encodable(rec) && s == Encode(rec, crc)
    ensures |s| == 8 + |Payload(rec)| >= HDR_FIXED
    ensures FromLE(s[..4]) == |s| && FromLE(s[4..8]) == crc(Payload(rec)) && s[8..] == Payload(rec)
  {
    Pow256Values();
    var p := Payload(rec);
    ThreeParts(LE(8 + |p|, 4), LE(crc(p), 4), p, s);
    FromLEInverse(8 + |p|, 4);
    FromLEInverse(crc(p), 4);
  }

  lemma Shifted(s: Bytes, n: nat, p: Bytes, i: nat, j: nat)
    requires n <= |s| && s[n..] == p && i <= j <= |p|
    ensures s[n + i..n + j] == p[i..j]
  {
    var a, b := s[n + i..n + j], p[i..j];
    forall k | 0 <= k < j - i
      ensures a[k] == b[k]
    {
      assert a[k] == s[n + (i + k)] == s[n..][i + k];
    }
  }

  /** Decoding inverts encoding, for every record type. */
  lemma DecodeEncode(rec: LogRecord, crc: Bytes -> U32)
    requires Encodable(rec)
    ensures |Encode(rec, crc)| >= HDR_FIXED && FromLE(Encode(rec, crc)[..4]) == |Encode(rec, crc)|
    ensures Decode(Encode(rec, crc), crc) == Some(rec)
  {
    var s, p := Encode(rec, crc), Payload(rec);
    EncodeHead(rec, crc, s);
    PayloadBack(rec, p);
    BodyBack(rec);
    DecodeParts(rec, crc, s, p);
  }

  lemma DecodeParts(rec: LogRecord, crc: Bytes -> U32, s: Bytes, p: Bytes)
    requires |s| == 8 + |p| && |p| >= 25 && FromLE(s[..4]) == |s| && FromLE(s[4..8]) == crc(p) && s[8..] == p
    requires p[0] == TypeCode(rec)
    requires FromLE(p[1..9]) == rec.lsn && FromLE(p[9..17]) == rec.txn && FromLE(p[17..25]) == rec.prev
    requires DecodeBody(TypeCode(rec), rec.lsn, rec.txn, rec.prev, p[25..]) == Some(rec)
    ensures Decode(s, crc) == Some(rec)
  {
    assert s[8..|s|] == p && s[8] == p[0];
    Shifted(s, 8, p, 1, 9);
    Shifted(s, 8, p, 9, 17);
    Shifted(s, 8, p, 17, 25);
    Shifted(s, 8, p, 25, |p|);
    assert p[25..|p|] == p[25..];
  }

  /** Where everything is: length, checksum, type, LSN, transaction and previous LSN in every record,
      then the fields and contents of a write. */
  lemma EncodeLayout(rec: LogRecord, crc: Bytes -> U32, s: Bytes)
    requires Encodable(rec) && s == Encode(rec, crc)
    ensures |s| >= 33 && FromLE(s[..4]) == |s| && FromLE(s[4..8]) == crc(s[8..])
    ensures s[8] == match rec {
              case BeginRec(_, _, _, _) => 1
              case WriteRec(_, _, _, _, _, _, _, _) => 2
              case CommitRec(_, _, _) => 3
              case AbortRec(_, _, _) => 4
              case CLRRec(_, _, _, _) => 5
            }
    ensures FromLE(s[9..17]) == rec.lsn && FromLE(s[17..25]) == rec.txn && FromLE(s[25..33]) == rec.prev
    ensures rec.WriteRec? ==>
              && |s| >= 54 && FromLE(s[33..41]) == rec.undoNext && s[41] == rec.op
              && FromLE(s[42..44]) == |rec.row.table| && FromLE(s[44..46]) == |rec.row.key|
              && FromLE(s[46..50]) == |rec.before| && FromLE(s[50..54]) == |rec.after|
              && s[54..] == rec.row.table + rec.row.key + rec.before + rec.after
  {
    var p := Payload(rec);
    EncodeHead(rec, crc, s);
    PayloadBack(rec, p);
    Shifted(s, 8, p, 1, 9);
    Shifted(s, 8, p, 9, 17);
    Shifted(s, 8, p, 17, 25);
    if rec.WriteRec? {
      assert s[33..] == p[25..];
      WriteHeadBack(rec, WriteTail(rec), Body(rec));
      WriteLayout(s, Body(rec));
    }
  }

  lemma WriteLayout(s: Bytes, body: Bytes)
    requires |s| >= 33 && s[33..] == body && |body| >= 21
    ensures s[33..41] == body[..8] && s[41] == body[8] && s[42..44] == body[9..11] && s[44..46] == body[11..13]
    ensures s[46..50] == body[13..17] && s[50..54] == body[17..21] && s[54..] == body[21..]
  {
    Shifted(s, 33, body, 0, 8);
    Shifted(s, 33, body, 9, 11);
    Shifted(s, 33, body, 11, 13);
    Shifted(s, 33, body, 13, 17);
    Shifted(s, 33, body, 17, 21);
  }

  // ---------------------------------------------------------------- the scan

  type Encoder = LogRecord -> Bytes

  type Decoder = Bytes -> Option<LogRecord>

  function EncoderOf(crc: Bytes -> U32): Encoder {
    (rec: LogRecord) => Encode(rec, crc)
  }

  function DecoderOf(crc: Bytes -> U32): Decoder {
    (b: Bytes) => Decode(b, crc)
  }

  /** A log file: the images of its records, one after the other. */
  function EncodeAll(recs: seq<LogRecord>, enc: Encoder): Bytes {
    if recs == [] then [] else enc(recs[0]) + EncodeAll(recs[1..], enc)
  }

  /** The records at the front of a log file, up to the first one that is cut short or that `dec`
      rejects. */
  function Scan(s: Bytes, dec: Decoder): seq<LogRecord>
    decreases |s|
  {
    if |s| < 4 then []
    else
      var total := FromLE(s[..4]);
      if total < HDR_FIXED || |s| < total then []
      else
        match dec(s[..total])
        case None => []
        case Some(rec) => [rec] + Scan(s[total..], dec)
  }

  function Since(recs: seq<LogRecord>, from: LSN): seq<LogRecord> {
    if recs == [] then []
    else Since(recs[..|recs| - 1], from)
         + if recs[|recs| - 1].lsn >= from then [recs[|recs| - 1]] else []
  }

  lemma SinceStep(seen: seq<LogRecord>, rec: LogRecord, from: LSN)
    ensures Since(seen + [rec], from) == Since(seen, from) + if rec.lsn >= from then [rec] else []
  {
    assert (seen + [rec])[..|seen|] == seen;
  }

  lemma {:induction false} SinceMeans(recs: seq<LogRecord>, from: LSN)
    ensures forall rec :: rec in Since(recs, from) <==> rec in recs && rec.lsn >= from
  {
    if recs != [] {
      var n := |recs| - 1;
      SinceMeans(recs[..n], from);
      assert recs == recs[..n] + [recs[n]];
    }
  }

  /** Read every record with LSN at least `from`; `rest` is the unread part of the file. */
  method ReadAllRecordsFrom(file: Bytes, from: LSN, dec: Decoder) returns (recs: seq<LogRecord>)
    ensures recs == Since(Scan(file, dec), from)
    ensures forall rec :: rec in recs <==> rec in Scan(file, dec) && rec.lsn >= from
  {
    SinceMeans(Scan(file, dec), from);
    recs := [];
    var rest := file;
    ghost var seen: seq<LogRecord> := [];
    assert seen + Scan(file, dec) == Scan(file, dec);
    while true
      invariant Scan(file, dec) == seen + Scan(rest, dec)
      invariant recs == Since(seen, from)
      decreases |rest|
    {
      if |rest| < 4 {
        break;
      }
      var total := FromLE(rest[..4]);
      if total < HDR_FIXED || |rest| < total {
        break;
      }
      var rec := dec(rest[..total]);
      if rec.None? {
        break;
      }
      Advance(seen, rec.value, Scan(rest[total..], dec));
      SinceStep(seen, rec.value, from);
      seen := seen + [rec.value];
      if rec.value.lsn >= from {
        recs := recs + [rec.value];
      }
      rest := rest[total..];
    }
    assert seen + [] == seen;
  }

  lemma Advance(seen: seq<LogRecord>, rec: LogRecord, more: seq<LogRecord>)
    ensures seen + ([rec] + more) == (seen + [rec]) + more
  {
  }

  /** How many whole records fit into the first `k` bytes. */
  function Whole(recs: seq<LogRecord>, enc: Encoder, k: nat): (n: nat)
    ensures n <= |recs|
  {
    if recs == [] || k < |enc(recs[0])| then 0
    else 1 + Whole(recs[1..], enc, k - |enc(recs[0])|)
  }

  /** `Whole` counts exactly the records that lie inside the prefix. */
  lemma {:induction false} WholeMeans(recs: seq<LogRecord>, enc: Encoder, k: nat)
    ensures var n := Whole(recs, enc, k);
            && |EncodeAll(recs[..n], enc)| <= k
            && (n < |recs| ==> |EncodeAll(recs[..n + 1], enc)| > k)
  {
    if recs != [] && k >= |enc(recs[0])| {
      var n := Whole(recs[1..], enc, k - |enc(recs[0])|);
      WholeMeans(recs[1..], enc, k - |enc(recs[0])|);
      assert recs[..n + 1][1..] == recs[1..][..n];
      if n < |recs[1..]| {
        assert recs[..n + 2][1..] == recs[1..][..n + 1];
      }
    } else if recs != [] {
      assert recs[..1][1..] == [];
    }
  }

  /** A record cut short yields nothing. */
  lemma ScanCut(e: Bytes, rest: Bytes, k: nat, dec: Decoder)
    requires k < |e| && |e| >= HDR_FIXED && FromLE(e[..4]) == |e|
    ensures Scan((e + rest)[..k], dec) == []
  {
    if k >= 4 {
      assert (e + rest)[..k][..4] == e[..4];
    }
  }

  lemma ScanWhole(rec: LogRecord, e: Bytes, rest: Bytes, dec: Decoder)
    requires |e| >= HDR_FIXED && FromLE(e[..4]) == |e| && dec(e) == Some(rec)
    ensures Scan(e + rest, dec) == [rec] + Scan(rest, dec)
  {
    var s := e + rest;
    assert s[..4] == e[..4] && s[..|e|] == e && s[|e|..] == rest;
  }

  lemma TakeMore(recs: seq<LogRecord>, n: nat)
    requires n < |recs|
    ensures [recs[0]] + recs[1..][..n] == recs[..n + 1]
  {
  }

  /** The image of `rec` starts with its own length and decodes to `rec`. */
  ghost predicate Framed(rec: LogRecord, enc: Encoder, dec: Decoder) {
    |enc(rec)| >= HDR_FIXED && FromLE(enc(rec)[..4]) == |enc(rec)| && dec(enc(rec)) == Some(rec)
  }

  lemma {:induction false} TornScan(recs: seq<LogRecord>, enc: Encoder, dec: Decoder, k: nat)
    requires forall i | 0 <= i < |recs| :: Framed(recs[i], enc, dec)
    requires k <= |EncodeAll(recs, enc)|
    ensures Scan(EncodeAll(recs, enc)[..k], dec) == recs[..Whole(recs, enc, k)]
  {
    if recs != [] {
      assert Framed(recs[0], enc, dec);
      var e, rest := enc(recs[0]), EncodeAll(recs[1..], enc);
      if k < |e| {
        ScanCut(e, rest, k, dec);
      } else {
        TornScan(recs[1..], enc, dec, k - |e|);
        assert (e + rest)[..k] == e + rest[..k - |e|];
        ScanWhole(recs[0], e, rest[..k - |e|], dec);
        TakeMore(recs, Whole(recs[1..], enc, k - |e|));
      }
    }
  }

  /** Torn tail: whatever byte the log is cut at, the scan returns exactly the records that lie
      wholly before the cut. */
  lemma TornTail(recs: seq<LogRecord>, crc: Bytes -> U32, k: nat)
    requires forall i | 0 <= i < |recs| :: Encodable(recs[i])
    requires k <= |EncodeAll(recs, EncoderOf(crc))|
    ensures Scan(EncodeAll(recs, EncoderOf(crc))[..k], DecoderOf(crc)) == recs[..Whole(recs, EncoderOf(crc), k)]
  {
    forall i | 0 <= i < |recs|
      ensures Framed(recs[i], EncoderOf(crc), DecoderOf(crc))
    {
      DecodeEncode(recs[i], crc);
    }
    TornScan(recs, EncoderOf(crc), DecoderOf(crc), k);
  }

  // ---------------------------------------------------------------- damage

  /** A whole record whose stored checksum is not that of its payload. */
  predicate Damaged(e: Bytes, crc: Bytes -> U32) {
    |e| >= HDR_FIXED && FromLE(e[..4]) == |e| && FromLE(e[4..8]) != crc(e[8..])
  }

  /** Nothing is decoded from a buffer whose stored and computed sums differ. */
  lemma DamagedIsRejected(b: Bytes, crc: Bytes -> U32)
    requires |b| >= HDR_FIXED && HDR_FIXED <= FromLE(b[..4]) <= |b| && FromLE(b[4..8]) != crc(b[8..FromLE(b[..4])])
    ensures Decode(b, crc) == None
  {
  }

  /** Replacing the payload by one of the same length and another checksum is such damage. */
  lemma OverwrittenIsDamaged(rec: LogRecord, crc: Bytes -> U32, p: Bytes)
    requires Encodable(rec) && |p| == |Payload(rec)| && crc(p) != crc(Payload(rec))
    ensures Damaged(Encode(rec, crc)[..8] + p, crc)
  {
    var s := Encode(rec, crc);
    EncodeHead(rec, crc, s);
    var e := s[..8] + p;
    assert e[..4] == s[..4] && e[4..8] == s[4..8] && e[8..] == p;
  }

  lemma ScanDamaged(e: Bytes, rest: Bytes, crc: Bytes -> U32)
    requires Damaged(e, crc)
    ensures Scan(e + rest, DecoderOf(crc)) == []
  {
    var s := e + rest;
    assert s[..4] == e[..4] && s[..|e|] == e && e[8..|e|] == e[8..];
    DamagedIsRejected(e, crc);
  }

  lemma {:induction false} ScanUpTo(recs: seq<LogRecord>, crc: Bytes -> U32, bad: Bytes)
    requires forall i | 0 <= i < |recs| :: Encodable(recs[i])
    requires Scan(bad, DecoderOf(crc)) == []
    ensures Scan(EncodeAll(recs, EncoderOf(crc)) + bad, DecoderOf(crc)) == recs
  {
    var enc, dec := EncoderOf(crc), DecoderOf(crc);
    if recs == [] {
      assert EncodeAll(recs, enc) + bad == bad;
    } else {
      var e, rest := enc(recs[0]), EncodeAll(recs[1..], enc);
      DecodeEncode(recs[0], crc);
      ScanUpTo(recs[1..], crc, bad);
      assert (e + rest) + bad == e + (rest + bad);
      ScanWhole(recs[0], e, rest + bad, dec);
      assert [recs[0]] + recs[1..] == recs;
    }
  }

  /** Damage anywhere: the scan returns exactly the records before the first damaged one, whatever
      follows it. */
  lemma DamageStops(recs: seq<LogRecord>, crc: Bytes -> U32, e: Bytes, rest: Bytes)
    requires (forall i | 0 <= i < |recs| :: Encodable(recs[i])) && Damaged(e, crc)
    ensures Scan(EncodeAll(recs, EncoderOf(crc)) + (e + rest), DecoderOf(crc)) == recs
  {
    ScanDamaged(e, rest, crc);
    ScanUpTo(recs, crc, e + rest);
  }
}
