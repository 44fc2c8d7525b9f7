/**
 The TLS 1.2 AES-GCM record layer of src/tls12Callouts.c: a writer that seals
 records onto a linked queue, a reader that opens them in place, and what holds
 over whole runs of either.
 */
module GcmRecords {
  import opened Bytes
  import opened GcmField
  import opened Gcm
  import opened TlsRecords

  predicate Writable(rec: Record) {
    rec.version < 0x1_0000 && |rec.contents| <= MAX_CONTENT
  }

  datatype Status = NoErr | MemFull | Internal

  datatype ReadError = InternalError | DecryptionFail | BadRecordMac

  datatype Result<T> = Ok(value: T) | Err(error: ReadError)

  // ----- the wire format -----

  /** tls12GcmBuildAad: sequence number, type, version, plaintext length. */
  function Aad(seqNum: nat, contentType: Byte, version: nat, len: nat): (r: seq<Byte>)
    ensures |r| == 13
  {
    BigEndian(seqNum, 8) + [contentType] + BigEndian(version, 2) + BigEndian(len, 2)
  }

  /** buildNonce: fixed IV, then the explicit nonce. */
  function Nonce(fixedIV: seq<Byte>, explicitNonce: seq<Byte>): (r: seq<Byte>)
    requires |fixedIV| == 4 && |explicitNonce| == 8
    ensures |r| == 12
  {
    fixedIV + explicitNonce
  }

  /** Sequence number, type, version and length, in this order, big-endian. */
  lemma AadFields(seqNum: nat, contentType: Byte, version: nat, len: nat)
    requires seqNum < TWO64 && version < 0x1_0000 && len < 0x1_0000
    ensures var a := Aad(seqNum, contentType, version, len);
            && FromBigEndian(a[..8]) == seqNum && a[8] == contentType
            && FromBigEndian(a[9..11]) == version && FromBigEndian(a[11..]) == len
  {
    assert Pow256(8) == TWO64 && Pow256(2) == 0x1_0000;
    hide BigEndian, FromBigEndian, Pow256;
    var a := Aad(seqNum, contentType, version, len);
    assert a[..8] == BigEndian(seqNum, 8) && a[9..11] == BigEndian(version, 2) && a[11..] == BigEndian(len, 2);
    BigEndianRoundTrip(seqNum, 8);
    BigEndianRoundTrip(version, 2);
    BigEndianRoundTrip(len, 2);
  }

  /** The fixed part comes first. */
  lemma NonceFields(fixedIV: seq<Byte>, explicitNonce: seq<Byte>)
    requires |fixedIV| == 4 && |explicitNonce| == 8
    ensures Nonce(fixedIV, explicitNonce)[..4] == fixedIV && Nonce(fixedIV, explicitNonce)[4..] == explicitNonce
  {
  }

  /** What is authenticated tells sequence number, type, version and length apart. */
  lemma AadInjective(s: nat, t: Byte, v: nat, n: nat, s': nat, t': Byte, v': nat, n': nat)
    requires s < TWO64 && s' < TWO64 && v < 0x1_0000 && v' < 0x1_0000 && n < 0x1_0000 && n' < 0x1_0000
    requires Aad(s, t, v, n) == Aad(s', t', v', n')
    ensures s == s' && t == t' && v == v' && n == n'
  {
    hide Aad, FromBigEndian;
    AadFields(s, t, v, n);
    AadFields(s', t', v', n');
  }

  function Header(rec: Record): (r: seq<Byte>)
    ensures |r| == 5
  {
    [rec.contentType] + BigEndian(rec.version, 2) + BigEndian(|rec.contents| + 24, 2)
  }

  function SealRecord(e: Block -> Block, fixedIV: seq<Byte>, seqNum: nat, rec: Record): Sealed
    requires |fixedIV| == 4
  {
    SealSpec(e, Nonce(fixedIV, BigEndian(seqNum, 8)), Aad(seqNum, rec.contentType, rec.version, |rec.contents|), rec.contents)
  }

  /** Header, explicit nonce, ciphertext, tag. */
  function Wire(e: Block -> Block, fixedIV: seq<Byte>, seqNum: nat, rec: Record): seq<Byte>
    requires |fixedIV| == 4
  {
    var s := SealRecord(e, fixedIV, seqNum, rec);
    Header(rec) + BigEndian(seqNum, 8) + s.ct + s.tag
  }

  // ----- the writer -----

  /** The record number `k` of a run that began at `start`; the counter has 64 bits. */
  function SeqNum(start: nat, k: nat): nat {
    (start + k) % TWO64
  }

  /** What a run of writes leaves on the queue. */
  function WireRun(e: Block -> Block, fixedIV: seq<Byte>, start: nat, recs: seq<Record>): (r: seq<seq<Byte>>)
    requires |fixedIV| == 4
    ensures |r| == |recs|
  {
    seq(|recs|, k requires 0 <= k < |recs| => Wire(e, fixedIV, SeqNum(start, k), recs[k]))
  }

  /** The blocks record `k` of a run puts to the cipher. */
  function RecordInputs(fixedIV: seq<Byte>, start: nat, recs: seq<Record>, k: nat): seq<Block>
    requires |fixedIV| == 4 && k < |recs|
  {
    SealInputs(Nonce(fixedIV, BigEndian(SeqNum(start, k), 8)), |recs[k].contents|)
  }

  /** All blocks a run puts to the cipher. */
  function RunInputs(fixedIV: seq<Byte>, start: nat, recs: seq<Record>): seq<Block>
    requires |fixedIV| == 4
  {
    if recs == [] then []
    else
      var n := |recs| - 1;
      RunInputs(fixedIV, start, recs[..n]) + RecordInputs(fixedIV, start, recs, n)
  }

  /** The write side of an SSL context with an AES-GCM suite selected. */
  class Writer {
    const cipher: BlockCipher
    const fixedIV: seq<Byte>
    const hasContext: bool
    const contextValid: bool
    const recordWriteQueue: WriteQueue
    var sequenceNum: nat

    ghost const start: nat
    ghost var written: seq<Record>

    /** Queue, sequence number and cipher calls are those of the records written so far. */
    ghost predicate Valid()
      reads this, cipher, recordWriteQueue, recordWriteQueue.nodes, set n | n in recordWriteQueue.nodes :: n.data
    {
      && |fixedIV| == 4
      && recordWriteQueue.Linked()
      && sequenceNum == SeqNum(start, |written|)
      && recordWriteQueue.Contents() == WireRun(cipher.E, fixedIV, start, written)
      && cipher.log == RunInputs(fixedIV, start, written)
      && (forall k :: 0 <= k < |written| ==> Writable(written[k]))
    }

    constructor (cipher: BlockCipher, fixedIV: seq<Byte>, hasContext: bool, contextValid: bool, sequenceNum: nat)
      requires |fixedIV| == 4 && sequenceNum < TWO64 && cipher.log == []
      ensures Valid() && written == [] && start == sequenceNum && fresh(recordWriteQueue)
      ensures this.cipher == cipher && this.fixedIV == fixedIV
      ensures this.hasContext == hasContext && this.contextValid == contextValid
    {
      this.cipher, this.fixedIV, this.hasContext, this.contextValid := cipher, fixedIV, hasContext, contextValid;
      this.sequenceNum, this.start := sequenceNum, sequenceNum;
      recordWriteQueue := new WriteQueue();
      written := [];
    }

    /**
     tls12WriteGcmRecord; `hasMemory` is whether memory was available. A call that
     fails leaves queue, sequence number and cipher calls as they were.
     */
    method WriteGcmRecord(contentType: Byte, version: nat, contents: array<Byte>, hasMemory: bool) returns (err: Status)
      requires Valid() && Writable(Record(contentType, version, contents[..]))
      modifies this, recordWriteQueue, recordWriteQueue.nodes, cipher
      ensures Valid()
      ensures err == if !hasContext then Internal else if !hasMemory then MemFull
                     else if !contextValid then Internal else NoErr
      ensures written == old(written) + (if err == NoErr then [Record(contentType, version, old(contents[..]))] else [])
    {
      hide WireRun, RunInputs, SeqNum, Wire, SealInputs;
      if !hasContext {
        return Internal;
      }
      var len := contents.Length;
      ghost var rec := Record(contentType, version, contents[..]);
      if !hasMemory {
        return MemFull;
      }
      var out := new WaitingRecord(5 + 8 + len + 16);
      var ok := FillRecord(cipher, fixedIV, contextValid, sequenceNum, contentType, version, contents, out.data);
      if !ok {
        return Internal;
      }
      Append(out, rec);
      return NoErr;
    }

    /** The last steps of a successful write: enqueue, then count the record. */
    method Append(out: WaitingRecord, ghost rec: Record)
      requires |fixedIV| == 4 && recordWriteQueue.Linked() && Writable(rec)
      requires out !in recordWriteQueue.nodes && out.next == null
      requires sequenceNum == SeqNum(start, |written|)
      requires recordWriteQueue.Contents() == WireRun(cipher.E, fixedIV, start, written)
      requires forall k :: 0 <= k < |written| ==> Writable(written[k])
      requires out.data[..] == Wire(cipher.E, fixedIV, sequenceNum, rec)
      requires cipher.log == RunInputs(fixedIV, start, written)
                           + SealInputs(Nonce(fixedIV, BigEndian(sequenceNum, 8)), |rec.contents|)
      modifies this, recordWriteQueue, recordWriteQueue.nodes
      ensures Valid() && written == old(written) + [rec]
    {
      hide Wire, SealInputs, SeqNum, RunInputs, WireRun;
      recordWriteQueue.Enqueue(out);
      WireRunStep(cipher.E, fixedIV, start, written, rec);
      SeqNumStep(start, |written|);
      RunInputsStep(fixedIV, start, written, rec);
      sequenceNum := Increment(sequenceNum);
      written := written + [rec];
    }
  }

  /** tls12GcmBuildAad */
  method BuildAad(seqNum: nat, contentType: Byte, version: nat, len: nat) returns (aad: array<Byte>)
    ensures fresh(aad) && aad[..] == Aad(seqNum, contentType, version, len)
  {
    hide BigEndian;
    aad := new Byte[13](_ => 0);
    PutUInt64(aad, 0, seqNum);
    aad[8] := contentType;
    aad[9], aad[10] := version / 256 % 256, version % 256;
    aad[11], aad[12] := len / 256 % 256, len % 256;
    BigEndian2(version);
    BigEndian2(len);
    assert aad[..8] == BigEndian(seqNum, 8);
    assert aad[..] == aad[..8] + [aad[8]] + [aad[9], aad[10]] + [aad[11], aad[12]];
  }

  lemma BigEndian2(n: nat)
    ensures BigEndian(n, 2) == [n / 256 % 256, n % 256]
  {
    assert BigEndian(n / 256, 1) == [n / 256 % 256];
  }

  /** buildNonce */
  method BuildNonce(fixedIV: seq<Byte>, explicitNonce: seq<Byte>) returns (iv: array<Byte>)
    requires |fixedIV| == 4 && |explicitNonce| == 8
    ensures fresh(iv) && iv[..] == Nonce(fixedIV, explicitNonce)
  {
    iv := new Byte[12](_ => 0);
    CopyInto(iv, 0, fixedIV);
    CopyInto(iv, 4, explicitNonce);
  }

  /** Writes header, explicit nonce, ciphertext and tag; false when the seal is refused. */
  method FillRecord(cipher: BlockCipher, fixedIV: seq<Byte>, contextValid: bool, seqNum: nat,
                    contentType: Byte, version: nat, contents: array<Byte>, data: array<Byte>) returns (ok: bool)
    requires |fixedIV| == 4 && data.Length == 29 + contents.Length && data != contents
    modifies cipher, data
    ensures ok <==> contextValid
    ensures ok ==> data[..] == Wire(cipher.E, fixedIV, seqNum, Record(contentType, version, contents[..]))
    ensures cipher.log == old(cipher.log) + (if ok then SealInputs(Nonce(fixedIV, BigEndian(seqNum, 8)), contents.Length) else [])
  {
    hide *;
    var len := contents.Length;
    ghost var rec := Record(contentType, version, contents[..]);
    var explicitNonce := BigEndian(seqNum, 8);
    var head := [contentType] + BigEndian(version, 2) + BigEndian(8 + len + 16, 2) + explicitNonce;
    CopyInto(data, 0, head);
    if !contextValid {
      return false;
    }
    var aad := BuildAad(seqNum, contentType, version, len);
    var iv := BuildNonce(fixedIV, explicitNonce);
    assert data[..13] == head;
    assert contents[0..len] == contents[..];
    SealDisjoint(contents, data, len);
    Seal(cipher, iv[..], aad[..], contents, 0, len, data, 13, data, 13 + len);
    SealRecordDef(cipher.E, fixedIV, seqNum, rec);
    assert data[..13] == head;
    WireParts(data[..], cipher.E, fixedIV, seqNum, rec);
    return true;
  }

  lemma SealDisjoint(a: array<Byte>, b: array<Byte>, len: nat)
    requires a != b
    ensures SameOrApart(a, 0, b, 13, len)
  {
  }

  lemma SealRecordDef(e: Block -> Block, fixedIV: seq<Byte>, seqNum: nat, rec: Record)
    requires |fixedIV| == 4
    ensures SealRecord(e, fixedIV, seqNum, rec)
         == SealSpec(e, Nonce(fixedIV, BigEndian(seqNum, 8)),
                     Aad(seqNum, rec.contentType, rec.version, |rec.contents|), rec.contents)
  {
  }

  lemma WireRunStep(e: Block -> Block, fixedIV: seq<Byte>, start: nat, recs: seq<Record>, rec: Record)
    requires |fixedIV| == 4
    ensures WireRun(e, fixedIV, start, recs + [rec])
         == WireRun(e, fixedIV, start, recs) + [Wire(e, fixedIV, SeqNum(start, |recs|), rec)]
  {
    hide Wire, SeqNum;
  }

  lemma SeqNumStep(start: nat, k: nat)
    ensures Increment(SeqNum(start, k)) == SeqNum(start, k + 1)
  {
  }

  lemma RunInputsStep(fixedIV: seq<Byte>, start: nat, recs: seq<Record>, rec: Record)
    requires |fixedIV| == 4
    ensures RunInputs(fixedIV, start, recs + [rec])
         == RunInputs(fixedIV, start, recs) + SealInputs(Nonce(fixedIV, BigEndian(SeqNum(start, |recs|), 8)), |rec.contents|)
  {
    assert (recs + [rec])[..|recs|] == recs;
  }

  /** The buffer that the writer has filled is the wire format. */
  lemma WireParts(buf: seq<Byte>, e: Block -> Block, fixedIV: seq<Byte>, seqNum: nat, rec: Record)
    requires |fixedIV| == 4 && |buf| == 29 + |rec.contents|
    requires buf[..13] == [rec.contentType] + BigEndian(rec.version, 2) + BigEndian(8 + |rec.contents| + 16, 2) + BigEndian(seqNum, 8)
    requires Sealed(buf[13..13 + |rec.contents|], buf[13 + |rec.contents|..29 + |rec.contents|]) == SealRecord(e, fixedIV, seqNum, rec)
    ensures buf == Wire(e, fixedIV, seqNum, rec)
  {
    hide BigEndian, SealRecord;
    var n := |rec.contents|;
    assert buf == buf[..13] + buf[13..13 + n] + buf[13 + n..29 + n];
  }

  // ----- the reader -----

  /** What tls12DecryptGcmRecord makes of a payload. */
  function OpenPayload(e: Block -> Block, fixedIV: seq<Byte>, seqNum: nat, version: nat, contentType: Byte, payload: seq<Byte>): Result<seq<Byte>>
    requires |fixedIV| == 4
  {
    if |payload| < 24 then Err(DecryptionFail)
    else
      var n := |payload| - 24;
      var iv := Nonce(fixedIV, payload[..8]);
      var s := Sealed(payload[8..8 + n], payload[8 + n..]);
      if Accepts(e, iv, Aad(seqNum, contentType, version, n), s) then Ok(OpenSpec(e, iv, s.ct)) else Err(BadRecordMac)
  }

  lemma OpenPayloadDef(e: Block -> Block, fixedIV: seq<Byte>, seqNum: nat, version: nat, contentType: Byte, payload: seq<Byte>)
    requires |fixedIV| == 4 && |payload| >= 24
    ensures var n, iv := |payload| - 24, Nonce(fixedIV, payload[..8]);
            var s := Sealed(payload[8..8 + n], payload[8 + n..]);
            var accepted := Accepts(e, iv, Aad(seqNum, contentType, version, n), s);
            OpenPayload(e, fixedIV, seqNum, version, contentType, payload)
            == if accepted then Ok(OpenSpec(e, iv, s.ct)) else Err(BadRecordMac)
  {
  }

  lemma OpenPayloadShort(e: Block -> Block, fixedIV: seq<Byte>, seqNum: nat, version: nat, contentType: Byte, payload: seq<Byte>)
    requires |fixedIV| == 4 && |payload| < 24
    ensures OpenPayload(e, fixedIV, seqNum, version, contentType, payload) == Err(DecryptionFail)
  {
  }

  lemma SameRegion(a: array<Byte>, off: nat, len: nat)
    ensures SameOrApart(a, off, a, off, len)
  {
  }

  /** The read side of an SSL context with an AES-GCM suite selected. */
  class Reader {
    const cipher: BlockCipher
    const fixedIV: seq<Byte>
    const hasContext: bool
    const contextValid: bool
    const negVersion: nat
    var sequenceNum: nat

    constructor (cipher: BlockCipher, fixedIV: seq<Byte>, hasContext: bool, contextValid: bool, negVersion: nat, sequenceNum: nat)
      ensures this.cipher == cipher && this.fixedIV == fixedIV
      ensures this.hasContext == hasContext && this.contextValid == contextValid
      ensures this.negVersion == negVersion && this.sequenceNum == sequenceNum
    {
      this.cipher, this.fixedIV, this.hasContext, this.contextValid := cipher, fixedIV, hasContext, contextValid;
      this.negVersion, this.sequenceNum := negVersion, sequenceNum;
    }

    /** What this reader makes of a payload, whatever the state of its GCM context. */
    function Answer(contentType: Byte, payload: seq<Byte>): Result<seq<Byte>>
      requires |fixedIV| == 4
      reads this
    {
      if !hasContext then Err(InternalError)
      else if |payload| >= 24 && !contextValid then Err(BadRecordMac)
      else OpenPayload(cipher.E, fixedIV, sequenceNum, negVersion, contentType, payload)
    }

    lemma AnswerDef(contentType: Byte, payload: seq<Byte>)
      requires |fixedIV| == 4
      ensures !hasContext ==> Answer(contentType, payload) == Err(InternalError)
      ensures hasContext && |payload| >= 24 && !contextValid ==> Answer(contentType, payload) == Err(BadRecordMac)
      ensures hasContext && (|payload| < 24 || contextValid) ==>
                Answer(contentType, payload) == OpenPayload(cipher.E, fixedIV, sequenceNum, negVersion, contentType, payload)
    {
      hide OpenPayload;
    }

    /**
     tls12DecryptGcmRecord: opens the payload in place. The result is the offset of
     the plaintext within the payload and its length. On failure the payload is as
     it was.
     */
    method DecryptGcmRecord(contentType: Byte, payload: array<Byte>) returns (r: Result<Span>)
      requires |fixedIV| == 4
      modifies cipher, payload
      ensures match Answer(contentType, old(payload[..]))
              case Err(error) => r == Err(error)
              case Ok(content) => && r == Ok(Span(8, payload.Length - 24))
                                  && payload[8..payload.Length - 16] == content
      ensures r.Err? ==> payload[..] == old(payload[..])
    {
      hide *;
      AnswerDef(contentType, payload[..]);
      if !hasContext {
        return Err(InternalError);
      }
      if payload.Length < 24 {
        OpenPayloadShort(cipher.E, fixedIV, sequenceNum, negVersion, contentType, payload[..]);
        return Err(DecryptionFail);
      }
      var ctLen := payload.Length - 24;
      var aad := BuildAad(sequenceNum, contentType, negVersion, ctLen);
      if !contextValid {
        return Err(BadRecordMac);
      }
      var iv := BuildNonce(fixedIV, payload[..8]);
      ghost var s := Sealed(payload[8..8 + ctLen], payload[8 + ctLen..]);
      OpenPayloadDef(cipher.E, fixedIV, sequenceNum, negVersion, contentType, payload[..]);
      OpenInvertsSeal(cipher.E, iv[..], aad[..], s);
      SameRegion(payload, 8, ctLen);
      var ok := Open(cipher, iv[..], aad[..], payload, 8, ctLen, payload[8 + ctLen..], payload, 8);
      if !ok {
        return Err(BadRecordMac);
      }
      assert payload[8..8 + ctLen] == OpenSpec(cipher.E, iv[..], s.ct);
      return Ok(Span(8, ctLen));
    }

    /** SSLReadRecord's part: strip the header, decrypt, and count the record. */
    method ReadRecord(record: array<Byte>) returns (r: Result<seq<Byte>>)
      requires |fixedIV| == 4 && record.Length >= 5
      modifies this`sequenceNum, cipher
      ensures r == old(Answer(record[0], record[5..]))
      ensures sequenceNum == if r.Ok? then Increment(old(sequenceNum)) else old(sequenceNum)
    {
      hide Answer, Increment;
      var n := record.Length - 5;
      var payload := new Byte[n](i requires 0 <= i < n reads record => record[5 + i]);
      assert payload[..] == record[5..];
      var where := DecryptGcmRecord(record[0], payload);
      match where
      case Err(error) =>
        r := Err(error);
      case Ok(Span(off, len)) =>
        r := Ok(payload[off..off + len]);
        sequenceNum := Increment(sequenceNum);
    }
  }

  /** A sealed record opens to its contents when versions and counters agree. */
  lemma OpenWire(e: Block -> Block, fixedIV: seq<Byte>, seqNum: nat, rec: Record)
    requires |fixedIV| == 4
    ensures var w := Wire(e, fixedIV, seqNum, rec);
            && |w| == 29 + |rec.contents| && w[0] == rec.contentType
            && OpenPayload(e, fixedIV, seqNum, rec.version, rec.contentType, w[5..]) == Ok(rec.contents)
  {
    hide Aad, BigEndian, Accepts, OpenSpec, GctrSpec, TagSpec;
    var s, iv := SealRecord(e, fixedIV, seqNum, rec), Nonce(fixedIV, BigEndian(seqNum, 8));
    var aad := Aad(seqNum, rec.contentType, rec.version, |rec.contents|);
    var p := Wire(e, fixedIV, seqNum, rec)[5..];
    assert |s.ct| == |rec.contents|;
    assert p == BigEndian(seqNum, 8) + s.ct + s.tag;
    assert p[..8] == BigEndian(seqNum, 8) && p[8..8 + |s.ct|] == s.ct && p[8 + |s.ct|..] == s.tag;
    OpenInvertsSeal(e, iv, aad, s);
  }

  /** What a reader makes of a stream of records, counting as it goes. */
  function ReadRun(e: Block -> Block, fixedIV: seq<Byte>, seqNum: nat, version: nat, wires: seq<seq<Byte>>): seq<Result<seq<Byte>>>
    requires |fixedIV| == 4
    requires forall k :: 0 <= k < |wires| ==> |wires[k]| >= 5
    decreases |wires|
  {
    if wires == [] then []
    else
      var r := OpenPayload(e, fixedIV, seqNum, version, wires[0][0], wires[0][5..]);
      [r] + ReadRun(e, fixedIV, if r.Ok? then Increment(seqNum) else seqNum, version, wires[1..])
  }

  /**
   Delivery: reading a writer's queue from the same sequence number gives back
   every content, octet for octet and in order.
   */
  lemma {:induction false} Delivery(e: Block -> Block, fixedIV: seq<Byte>, start: nat, version: nat, recs: seq<Record>)
    requires |fixedIV| == 4
    requires forall k :: 0 <= k < |recs| ==> recs[k].version == version
    ensures var w := WireRun(e, fixedIV, start, recs);
            && (forall k :: 0 <= k < |w| ==> |w[k]| >= 5)
            && ReadRun(e, fixedIV, SeqNum(start, 0), version, w) == seq(|recs|, k requires 0 <= k < |recs| => Ok(recs[k].contents))
    decreases |recs|
  {
    hide Wire, OpenPayload, Increment, SeqNum;
    forall k | 0 <= k < |recs|
      ensures |Wire(e, fixedIV, SeqNum(start, k), recs[k])| >= 5
    {
      OpenWire(e, fixedIV, SeqNum(start, k), recs[k]);
    }
    if recs != [] {
      var w := WireRun(e, fixedIV, start, recs);
      OpenWire(e, fixedIV, SeqNum(start, 0), recs[0]);
      Delivery(e, fixedIV, start + 1, version, recs[1..]);
      SeqNumStep(start, 0);
      WireRunTail(e, fixedIV, start, recs);
      SeqNumShift(start, 0);
    }
  }

  lemma SeqNumShift(start: nat, k: nat)
    ensures SeqNum(start + 1, k) == SeqNum(start, k + 1)
  {
  }

  lemma WireRunTail(e: Block -> Block, fixedIV: seq<Byte>, start: nat, recs: seq<Record>)
    requires |fixedIV| == 4 && recs != []
    ensures WireRun(e, fixedIV, start, recs)[1..] == WireRun(e, fixedIV, start + 1, recs[1..])
  {
    hide Wire, SeqNum;
    var w, t := WireRun(e, fixedIV, start, recs)[1..], WireRun(e, fixedIV, start + 1, recs[1..]);
    forall k | 0 <= k < |w|
      ensures w[k] == t[k]
    {
      SeqNumShift(start, k);
    }
  }

  // ----- no block cipher input is used twice -----

  /** A counter block: 96-bit nonce, then a 32-bit counter. */
  function CounterBlock(iv: seq<Byte>, c: nat): Block
    requires |iv| == 12
  {
    iv + BigEndian(c, 4)
  }

  lemma CounterBlockInjective(iv: seq<Byte>, c: nat, iv': seq<Byte>, c': nat)
    requires |iv| == |iv'| == 12 && c < TWO32 && c' < TWO32
    requires CounterBlock(iv, c) == CounterBlock(iv', c')
    ensures iv == iv' && c == c'
  {
    assert iv == CounterBlock(iv, c)[..12] && iv' == CounterBlock(iv', c')[..12];
    assert BigEndian(c, 4) == CounterBlock(iv, c)[12..] && BigEndian(c', 4) == CounterBlock(iv', c')[12..];
    assert Pow256(4) == TWO32;
    BigEndianInjective(c, c', 4);
  }

  lemma Inc32Counter(iv: seq<Byte>, c: nat)
    requires |iv| == 12 && c + 1 < TWO32
    ensures Inc32(CounterBlock(iv, c)) == CounterBlock(iv, c + 1)
  {
    hide BigEndian, FromBigEndian;
    var b := CounterBlock(iv, c);
    assert b[12..] == BigEndian(c, 4) && b[..12] == iv;
    assert Pow256(4) == TWO32;
    BigEndianRoundTrip(c, 4);
  }

  lemma {:induction false} CounterIs(iv: seq<Byte>, n: nat)
    requires |iv| == 12 && n + 2 < TWO32
    ensures Counter(Inc32(J0(iv)), n) == CounterBlock(iv, n + 2)
  {
    hide Inc32, CounterBlock;
    Inc32Counter(iv, n + 1);
    if n == 0 {
      J0Counter(iv);
    } else {
      CounterIs(iv, n - 1);
    }
  }

  lemma J0Counter(iv: seq<Byte>)
    requires |iv| == 12
    ensures J0(iv) == CounterBlock(iv, 1)
  {
    BigEndian4(1);
  }

  /** The counter value in the block at position `a` of a seal's inputs. */
  function CounterAt(len: nat, a: nat): nat {
    if a < Blocks(len) then a + 2 else 1
  }

  lemma KeyInputIs(iv: seq<Byte>, len: nat, a: nat)
    requires |iv| == 12 && len <= MAX_CONTENT && a < |KeyInputs(iv, len)|
    ensures KeyInputs(iv, len)[a] == CounterBlock(iv, CounterAt(len, a))
    ensures 1 <= CounterAt(len, a) < TWO32
  {
    hide Counter, Inc32;
    if a < Blocks(len) {
      CounterIs(iv, a);
    } else {
      J0Counter(iv);
    }
  }

  /** Input `a` that record `k` of a run puts to the cipher, hash key apart. */
  function KeyInput(fixedIV: seq<Byte>, start: nat, recs: seq<Record>, k: nat, a: nat): Block
    requires |fixedIV| == 4 && k < |recs| && a + 1 < |RecordInputs(fixedIV, start, recs, k)|
  {
    RecordInputs(fixedIV, start, recs, k)[a + 1]
  }

  /**
   Over a run of at most 2^64 records no block is used twice for key stream or tag
   mask, and none is the zero block that the hash key comes from.
   */
  lemma InputsDistinct(fixedIV: seq<Byte>, start: nat, recs: seq<Record>, j: nat, a: nat, k: nat, b: nat)
    requires |fixedIV| == 4 && |recs| <= TWO64 && j < |recs| && k < |recs|
    requires forall i :: 0 <= i < |recs| ==> Writable(recs[i])
    requires a + 1 < |RecordInputs(fixedIV, start, recs, j)| && b + 1 < |RecordInputs(fixedIV, start, recs, k)|
    ensures KeyInput(fixedIV, start, recs, j, a) == KeyInput(fixedIV, start, recs, k, b) ==> j == k && a == b
    ensures KeyInput(fixedIV, start, recs, j, a) != Zeros(16) == RecordInputs(fixedIV, start, recs, j)[0]
  {
    hide *;
    var iv, iv' := Nonce(fixedIV, BigEndian(SeqNum(start, j), 8)), Nonce(fixedIV, BigEndian(SeqNum(start, k), 8));
    var len, len' := |recs[j].contents|, |recs[k].contents|;
    KeyInputDef(fixedIV, start, recs, j, a);
    KeyInputDef(fixedIV, start, recs, k, b);
    KeyInputIs(iv, len, a);
    KeyInputIs(iv', len', b);
    NotZero(iv, CounterAt(len, a));
    if KeyInput(fixedIV, start, recs, j, a) == KeyInput(fixedIV, start, recs, k, b) {
      CounterBlockInjective(iv, CounterAt(len, a), iv', CounterAt(len', b));
      NonceInjective(fixedIV, start, j, k);
      CounterAtInjective(len, a, b);
    }
  }

  /** Records of a run shorter than the counter's period have different nonces. */
  lemma NonceInjective(fixedIV: seq<Byte>, start: nat, j: nat, k: nat)
    requires |fixedIV| == 4 && j < TWO64 && k < TWO64
    requires Nonce(fixedIV, BigEndian(SeqNum(start, j), 8)) == Nonce(fixedIV, BigEndian(SeqNum(start, k), 8))
    ensures j == k
  {
    assert Pow256(8) == TWO64;
    hide BigEndian, Pow256;
    var m, n := BigEndian(SeqNum(start, j), 8), BigEndian(SeqNum(start, k), 8);
    assert m == Nonce(fixedIV, m)[4..] && n == Nonce(fixedIV, n)[4..];
    BigEndianInjective(SeqNum(start, j), SeqNum(start, k), 8);
    SeqNumInjective(start, j, k);
  }

  lemma KeyInputDef(fixedIV: seq<Byte>, start: nat, recs: seq<Record>, k: nat, a: nat)
    requires |fixedIV| == 4 && k < |recs| && a + 1 < |RecordInputs(fixedIV, start, recs, k)|
    requires Writable(recs[k])
    ensures var iv, len := Nonce(fixedIV, BigEndian(SeqNum(start, k), 8)), |recs[k].contents|;
            && len <= MAX_CONTENT && a < |KeyInputs(iv, len)| == Blocks(len) + 1
            && KeyInput(fixedIV, start, recs, k, a) == KeyInputs(iv, len)[a]
            && RecordInputs(fixedIV, start, recs, k)[0] == Zeros(16)
  {
    hide BigEndian, SeqNum, CounterBlocks, J0;
  }

  lemma CounterAtInjective(len: nat, a: nat, b: nat)
    requires a <= Blocks(len) && b <= Blocks(len) && CounterAt(len, a) == CounterAt(len, b)
    ensures a == b
  {
    hide Blocks;
  }

  lemma NotZero(iv: seq<Byte>, c: nat)
    requires |iv| == 12 && 1 <= c < TWO32
    ensures CounterBlock(iv, c) != Zeros(16)
  {
    BigEndian4(0);
    assert Zeros(16) == CounterBlock(Zeros(12), 0);
    if CounterBlock(iv, c) == Zeros(16) {
      CounterBlockInjective(iv, c, Zeros(12), 0);
    }
  }

  lemma SeqNumInjective(start: nat, j: nat, k: nat)
    requires j < TWO64 && k < TWO64 && SeqNum(start, j) == SeqNum(start, k)
    ensures j == k
  {
  }
}
