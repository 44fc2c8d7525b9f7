/**
 The CBC and stream-cipher record layer of src/tls12Callouts.c (section 6.2.3.2 of
 RFC 5246): explicit IV, MAC and padding on the way out, the same stripped and
 checked on the way in. The bulk cipher and the MAC are parameters; the cipher
 carries a state, such as the CBC chaining block, from record to record.
 */
module CbcRecords {
  import opened Wrappers
  import opened Bytes
  import opened TlsRecords

  const TLS_1_1: nat := 0x0302

  /** What a cipher leaves in place, whether it succeeds or not: its state and the buffer. */
  datatype Output<S> = Output(ok: bool, state: S, data: seq<Byte>)

  /** A negotiated suite; `blockSize` is 0 for stream ciphers. */
  datatype Suite<!S(!new)> = Suite(
    blockSize: nat,
    digestSize: nat,
    version: nat,
    mac: seq<Byte> -> seq<Byte>,
    encrypt: (S, seq<Byte>) -> Output<S>,
    decrypt: (S, seq<Byte>) -> Output<S>)
  {
    /** Decryption undoes encryption and reaches the same state. */
    ghost predicate Valid() {
      && blockSize < 256 && digestSize <= 64 && version < 0x1_0000
      && (forall x :: |mac(x)| == digestSize)
      && (forall s, p ::
            var c := encrypt(s, p);
            |c.data| == |p| && (c.ok ==> decrypt(s, c.data) == Output(true, c.state, p)))
      && (forall s, c :: |decrypt(s, c).data| == |c|)
    }

    /** Block ciphers have an explicit IV from TLS 1.1 on. */
    function IvLen(): (r: nat)
      ensures version >= 0x0302 ==> r == blockSize
      ensures version < 0x0302 ==> r == 0
    {
      if blockSize > 0 && version >= TLS_1_1 then blockSize else 0
    }
  }

  datatype Status = NoErr | MemFull | RandomFail | MacFail | EncryptFail

  datatype Error = RecordOverflow | DecryptionFail | BadRecordMac | OutOfBounds

  datatype Result<T> = Ok(value: T) | Err(error: Error)

  // ----- the payload -----

  /** tls12ComputeMac: 13 octets of header, then the content. */
  function MacInput(version: nat, seqNum: nat, contentType: Byte, contents: seq<Byte>): seq<Byte> {
    BigEndian(seqNum, 8) + [contentType] + BigEndian(version, 2) + BigEndian(|contents|, 2) + contents
  }

  /** The MAC covers thirteen octets of header, each field in its place, and the whole content behind them. */
  lemma MacInputFields(version: nat, seqNum: nat, contentType: Byte, contents: seq<Byte>)
    requires seqNum < TWO64 && version < 0x1_0000 && |contents| < 0x1_0000
    ensures var m := MacInput(version, seqNum, contentType, contents);
            && |m| == 13 + |contents| && FromBigEndian(m[..8]) == seqNum && m[8] == contentType
            && FromBigEndian(m[9..11]) == version && FromBigEndian(m[11..13]) == |contents| && m[13..] == contents
  {
    assert Pow256(8) == TWO64 && Pow256(2) == 0x1_0000;
    hide BigEndian, FromBigEndian, Pow256;
    var m := MacInput(version, seqNum, contentType, contents);
    assert m[..8] == BigEndian(seqNum, 8) && m[9..11] == BigEndian(version, 2) && m[11..13] == BigEndian(|contents|, 2);
    BigEndianRoundTrip(seqNum, 8);
    BigEndianRoundTrip(version, 2);
    BigEndianRoundTrip(|contents|, 2);
  }

  /** The value of each padding octet; one more octet than this is appended. */
  function Padding(blockSize: nat, len: nat): (r: nat)
    requires 0 < blockSize < 256
    ensures r < blockSize && (len + r + 1) % blockSize == 0
  {
    PaddingAligns(blockSize, len);
    blockSize - len % blockSize - 1
  }

  lemma PaddingAligns(b: nat, n: nat)
    requires 0 < b
    ensures (n + (b - n % b - 1) + 1) % b == 0
  {
    var q := n / b;
    assert n == b * q + n % b;
    assert n + (b - n % b - 1) + 1 == b * (q + 1);
    Quotient(b * (q + 1), b, q + 1, 0);
  }

  /** One octet more than its value, and all of them alike. */
  function Pads(pad: Byte): (r: seq<Byte>)
    ensures |r| == pad + 1 && forall k :: 0 <= k <= pad ==> r[k] == pad
  {
    seq(pad + 1, _ => pad)
  }

  /** Explicit IV, content, MAC, padding. */
  function Payload<S(!new)>(suite: Suite<S>, iv: seq<Byte>, seqNum: nat, contentType: Byte, contents: seq<Byte>): seq<Byte>
    requires suite.blockSize < 256 && |iv| == suite.IvLen()
  {
    var body := iv + contents + suite.mac(MacInput(suite.version, seqNum, contentType, contents));
    if suite.blockSize == 0 then body else body + Pads(Padding(suite.blockSize, |body|))
  }

  lemma PayloadShape<S(!new)>(suite: Suite<S>, iv: seq<Byte>, seqNum: nat, contentType: Byte, contents: seq<Byte>)
    requires suite.Valid() && |iv| == suite.IvLen() && |contents| <= MAX_CONTENT
    ensures |Payload(suite, iv, seqNum, contentType, contents)| < 0x1_0000
    ensures suite.blockSize > 0 ==> |Payload(suite, iv, seqNum, contentType, contents)| % suite.blockSize == 0
  {
    hide Payload;
    PayloadHasLength(suite, iv, seqNum, contentType, contents);
    hide Padding;
  }

  /** Where the content of a decrypted payload lies, once IV and padding are stripped. */
  function ContentSpan<S(!new)>(suite: Suite<S>, p: seq<Byte>): (r: Result<Span>)
    ensures r.Ok? ==> r.value.off + r.value.len + suite.digestSize <= |p|
  {
    var b, d := suite.blockSize, suite.digestSize;
    if suite.IvLen() > 0 && |p| < b + 1 + d then Err(DecryptionFail)
    else if b > 0 && |p| == 0 then Err(OutOfBounds)
    else if b > 0 && !PaddingOk(p) then Err(DecryptionFail)
    else
      var n := |p| - d - suite.IvLen() - (if b > 0 then 1 + p[|p| - 1] as nat else 0);
      if n < 0 then Err(OutOfBounds) else Ok(Span(suite.IvLen(), n))
  }

  /** What tls12DecryptRecord makes of a decrypted payload. */
  function Strip<S(!new)>(suite: Suite<S>, seqNum: nat, contentType: Byte, p: seq<Byte>): Result<seq<Byte>> {
    match ContentSpan(suite, p)
    case Err(e) => Err(e)
    case Ok(Span(off, len)) =>
      var content, mac := p[off..off + len], p[off + len..off + len + suite.digestSize];
      if suite.digestSize > 0 && suite.mac(MacInput(suite.version, seqNum, contentType, content)) != mac then Err(BadRecordMac)
      else Ok(content)
  }

  /** The last `padSize` octets all hold `padSize`. */
  predicate PaddingOk(p: seq<Byte>)
    requires p != []
  {
    var pad := p[|p| - 1];
    pad <= |p| && forall k :: |p| - pad <= k < |p| ==> p[k] == pad
  }

  lemma PadsOk(body: seq<Byte>, pad: Byte)
    ensures var p := body + Pads(pad);
            p[|p| - 1] == pad && PaddingOk(p)
  {
  }

  /** The reader finds the content where the writer has put it. */
  lemma SpanOfPayload<S(!new)>(suite: Suite<S>, iv: seq<Byte>, seqNum: nat, contentType: Byte, contents: seq<Byte>)
    requires suite.Valid() && |iv| == suite.IvLen()
    ensures ContentSpan(suite, Payload(suite, iv, seqNum, contentType, contents)) == Ok(Span(|iv|, |contents|))
  {
    hide MacInput, PaddingOk, Padding, Payload, Pads;
    PayloadDef(suite, iv, seqNum, contentType, contents);
    var m := suite.mac(MacInput(suite.version, seqNum, contentType, contents));
    assert |m| == suite.digestSize;
    if suite.blockSize > 0 {
      var body := iv + contents + m;
      PadsOk(body, Padding(suite.blockSize, |body|));
    }
  }

  /** A writer's payload strips back to its content. */
  lemma StripPayload<S(!new)>(suite: Suite<S>, iv: seq<Byte>, seqNum: nat, contentType: Byte, contents: seq<Byte>)
    requires suite.Valid() && |iv| == suite.IvLen()
    ensures Strip(suite, seqNum, contentType, Payload(suite, iv, seqNum, contentType, contents)) == Ok(contents)
  {
    hide MacInput, ContentSpan, Payload, Padding, Pads;
    SpanOfPayload(suite, iv, seqNum, contentType, contents);
    PayloadDef(suite, iv, seqNum, contentType, contents);
    var m := suite.mac(MacInput(suite.version, seqNum, contentType, contents));
    assert |m| == suite.digestSize;
    var body := iv + contents + m;
    assert body + [] == body;
    Parts(iv, contents, m, if suite.blockSize == 0 then [] else Pads(Padding(suite.blockSize, |body|)));
  }

  lemma Parts(iv: seq<Byte>, contents: seq<Byte>, m: seq<Byte>, tail: seq<Byte>)
    ensures var p, off, end := iv + contents + m + tail, |iv|, |iv| + |contents|;
            p[off..end] == contents && p[end..end + |m|] == m
  {
  }

  function Repeated(n: nat, b: Byte): (r: seq<Byte>)
    ensures |r| == n && forall k :: 0 <= k < n ==> r[k] == b
  {
    seq(n, _ => b)
  }

  /** The last octet is the number of octets, counted with it, that it is repeated at the end. */
  lemma PaddingExactly(p: seq<Byte>)
    requires p != []
    ensures var pad := p[|p| - 1];
            PaddingOk(p) <==> pad <= |p| && p[|p| - pad..] == Repeated(pad, pad)
  {
  }

  /** What may follow the MAC: nothing in a stream, and otherwise one octet more than the last one says. */
  predicate Trailer<S(!new)>(suite: Suite<S>, p: seq<Byte>, tail: seq<Byte>) {
    if suite.blockSize == 0 then tail == []
    else p != [] && PaddingOk(p) && |tail| == 1 + p[|p| - 1] as nat
  }

  /** `p` is IV, content, as many octets as a MAC has, and padding. */
  predicate Laid<S(!new)>(suite: Suite<S>, p: seq<Byte>, iv: seq<Byte>, content: seq<Byte>, m: seq<Byte>, tail: seq<Byte>) {
    |iv| == suite.IvLen() && |m| == suite.digestSize && Trailer(suite, p, tail) && p == iv + content + m + tail
  }

  lemma LaidSpan<S(!new)>(suite: Suite<S>, p: seq<Byte>, iv: seq<Byte>, content: seq<Byte>, m: seq<Byte>, tail: seq<Byte>)
    requires Laid(suite, p, iv, content, m, tail)
    ensures ContentSpan(suite, p) == Ok(Span(|iv|, |content|))
    ensures p[|iv|..|iv| + |content|] == content && p[|iv| + |content|..|iv| + |content| + |m|] == m
  {
    hide PaddingOk;
    Parts(iv, content, m, tail);
  }

  lemma SpanLaid<S(!new)>(suite: Suite<S>, p: seq<Byte>)
    requires ContentSpan(suite, p).Ok?
    ensures var Span(off, len) := ContentSpan(suite, p).value;
            var end := off + len + suite.digestSize;
            Laid(suite, p, p[..off], p[off..off + len], p[off + len..end], p[end..])
  {
    hide PaddingOk;
    var Span(off, len) := ContentSpan(suite, p).value;
    var end := off + len + suite.digestSize;
    assert p == p[..off] + p[off..off + len] + p[off + len..end] + p[end..];
  }

  /** The reader accepts a content exactly from IV, content, its MAC and padding. */
  lemma StripExactly<S(!new)>(suite: Suite<S>, seqNum: nat, contentType: Byte, p: seq<Byte>, content: seq<Byte>)
    requires suite.Valid()
    ensures Strip(suite, seqNum, contentType, p) == Ok(content) <==>
            exists iv, tail ::
              Laid(suite, p, iv, content, suite.mac(MacInput(suite.version, seqNum, contentType, content)), tail)
  {
    hide MacInput, ContentSpan, Laid;
    var m := suite.mac(MacInput(suite.version, seqNum, contentType, content));
    if Strip(suite, seqNum, contentType, p) == Ok(content) {
      SpanLaid(suite, p);
      var Span(off, len) := ContentSpan(suite, p).value;
      var end := off + len + suite.digestSize;
      assert p[off + len..end] == m;
      assert Laid(suite, p, p[..off], content, m, p[end..]);
    }
    forall iv, tail | Laid(suite, p, iv, content, m, tail)
      ensures Strip(suite, seqNum, contentType, p) == Ok(content)
    {
      LaidSpan(suite, p, iv, content, m, tail);
    }
  }

  /** It answers a wrong MAC exactly when everything is in place but the MAC. */
  lemma WrongMacExactly<S(!new)>(suite: Suite<S>, seqNum: nat, contentType: Byte, p: seq<Byte>)
    requires suite.Valid()
    ensures Strip(suite, seqNum, contentType, p) == Err(BadRecordMac) <==>
            exists iv, content, m, tail ::
              Laid(suite, p, iv, content, m, tail) && m != suite.mac(MacInput(suite.version, seqNum, contentType, content))
  {
    hide MacInput, ContentSpan, Laid;
    if Strip(suite, seqNum, contentType, p) == Err(BadRecordMac) {
      SpanOrError(suite, p);
      SpanLaid(suite, p);
      var Span(off, len) := ContentSpan(suite, p).value;
      var end := off + len + suite.digestSize;
      var iv, content, m, tail := p[..off], p[off..off + len], p[off + len..end], p[end..];
      assert Laid(suite, p, iv, content, m, tail) && m != suite.mac(MacInput(suite.version, seqNum, contentType, content));
    }
    forall iv, content, m, tail
      | Laid(suite, p, iv, content, m, tail) && m != suite.mac(MacInput(suite.version, seqNum, contentType, content))
      ensures Strip(suite, seqNum, contentType, p) == Err(BadRecordMac)
    {
      LaidSpan(suite, p, iv, content, m, tail);
      LaidMac(suite, p, iv, content, m, tail);
      assert |suite.mac(MacInput(suite.version, seqNum, contentType, content))| == suite.digestSize;
    }
  }

  lemma LaidMac<S(!new)>(suite: Suite<S>, p: seq<Byte>, iv: seq<Byte>, content: seq<Byte>, m: seq<Byte>, tail: seq<Byte>)
    requires Laid(suite, p, iv, content, m, tail)
    ensures |m| == suite.digestSize
  {
    hide Trailer;
  }

  /** It fails to decrypt exactly what is too short for a TLS 1.1 block cipher or badly padded. */
  lemma SpanOrError<S(!new)>(suite: Suite<S>, p: seq<Byte>)
    ensures ContentSpan(suite, p) == Err(DecryptionFail) <==>
            && suite.blockSize > 0
            && (|| (suite.version >= 0x0302 && |p| < suite.blockSize + 1 + suite.digestSize)
                || (p != [] && !PaddingOk(p)))
    ensures ContentSpan(suite, p) in {Err(DecryptionFail), Err(OutOfBounds)} || ContentSpan(suite, p).Ok?
  {
    hide PaddingOk;
  }

  /** Contents that are accepted under one sequence number and type, and differ, were authenticated by MACs of different inputs. */
  lemma AcceptedContents<S(!new)>(suite: Suite<S>, seqNum: nat, contentType: Byte, p: seq<Byte>, content: seq<Byte>, p': seq<Byte>, content': seq<Byte>)
    requires suite.Valid() && seqNum < TWO64 && |content| < 0x1_0000 && |content'| < 0x1_0000
    requires Strip(suite, seqNum, contentType, p) == Ok(content) && Strip(suite, seqNum, contentType, p') == Ok(content')
    requires content != content'
    ensures var x, y := MacInput(suite.version, seqNum, contentType, content), MacInput(suite.version, seqNum, contentType, content');
            && x != y
            && (exists iv, tail :: Laid(suite, p, iv, content, suite.mac(x), tail))
            && (exists iv, tail :: Laid(suite, p', iv, content', suite.mac(y), tail))
  {
    hide MacInput, Strip, Laid;
    MacInputFields(suite.version, seqNum, contentType, content);
    MacInputFields(suite.version, seqNum, contentType, content');
    StripExactly(suite, seqNum, contentType, p, content);
    StripExactly(suite, seqNum, contentType, p', content');
  }

  /** Padding, MAC and IV pass the checks of the reader and are longer than the payload. */
  predicate Overreaches<S(!new)>(suite: Suite<S>, p: seq<Byte>) {
    if suite.blockSize == 0 then |p| < suite.digestSize
    else if p == [] then suite.version < TLS_1_1
    else && (suite.version < TLS_1_1 || |p| >= suite.blockSize + 1 + suite.digestSize)
         && PaddingOk(p)
         && |p| < suite.IvLen() + suite.digestSize + 1 + p[|p| - 1]
  }

  // ----- whole records and whole runs -----

  /** The queue entry for one record and the cipher state after it; without `ok` the entry is dropped. */
  function WriteSpec<S(!new)>(suite: Suite<S>, state: S, iv: seq<Byte>, seqNum: nat, rec: Record): Output<S>
    requires suite.blockSize < 256 && |iv| == suite.IvLen()
  {
    var p := Payload(suite, iv, seqNum, rec.contentType, rec.contents);
    var c := suite.encrypt(state, p);
    Output(c.ok, c.state, [rec.contentType] + BigEndian(rec.version, 2) + BigEndian(|p|, 2) + c.data)
  }

  predicate Aligned<S(!new)>(suite: Suite<S>, payload: seq<Byte>) {
    suite.blockSize > 0 ==> |payload| % suite.blockSize == 0
  }

  /** What the payload of a record becomes in place: nothing is done to one that is not whole blocks. */
  function Decrypted<S(!new)>(suite: Suite<S>, state: S, payload: seq<Byte>): Output<S> {
    if Aligned(suite, payload) then suite.decrypt(state, payload) else Output(false, state, payload)
  }

  /** tls12DecryptRecord on the payload of a record. */
  function ReadSpec<S(!new)>(suite: Suite<S>, state: S, seqNum: nat, contentType: Byte, payload: seq<Byte>): Result<seq<Byte>> {
    if !Aligned(suite, payload) then Err(RecordOverflow)
    else
      var p := Decrypted(suite, state, payload);
      if p.ok then Strip(suite, seqNum, contentType, p.data) else Err(DecryptionFail)
  }

  /** What comes before stripping: whole blocks are asked for, and then the cipher. */
  lemma ReadErrors<S(!new)>(suite: Suite<S>, state: S, seqNum: nat, contentType: Byte, payload: seq<Byte>)
    requires suite.Valid()
    ensures var whole := suite.blockSize == 0 || |payload| % suite.blockSize == 0;
            var r, p := ReadSpec(suite, state, seqNum, contentType, payload), suite.decrypt(state, payload);
            && (r == Err(RecordOverflow) <==> !whole)
            && (whole && !p.ok ==> r == Err(DecryptionFail))
            && (whole && p.ok ==> r == Strip(suite, seqNum, contentType, p.data))
            && Decrypted(suite, state, payload) == if whole then p else Output(false, state, payload)
  {
    hide ContentSpan;
    SpanOrError(suite, suite.decrypt(state, payload).data);
  }

  /**
   The checks of the reader keep it inside the payload exactly when padding, MAC
   and IV together fit into what was decrypted; they do not imply that they fit.
   */
  lemma InBoundsExactly<S(!new)>(suite: Suite<S>, state: S, seqNum: nat, contentType: Byte, payload: seq<Byte>)
    requires suite.Valid()
    ensures ReadSpec(suite, state, seqNum, contentType, payload) == Err(OutOfBounds) <==>
            var p := Decrypted(suite, state, payload);
            p.ok && Overreaches(suite, p.data)
  {
    hide MacInput;
    StripOverreach(suite, seqNum, contentType, Decrypted(suite, state, payload).data);
  }

  lemma StripOverreach<S(!new)>(suite: Suite<S>, seqNum: nat, contentType: Byte, p: seq<Byte>)
    ensures Strip(suite, seqNum, contentType, p) == Err(OutOfBounds) <==> Overreaches(suite, p)
  {
    hide MacInput;
  }

  /** A suite whose cipher changes nothing. */
  function Transparent(blockSize: nat, version: nat): Suite<()> {
    Suite(blockSize, 20, version, _ => Zeros(20), (s, p) => Output(true, s, p), (s, p) => Output(true, s, p))
  }

  /**
   Payloads that the checks let through although they are too short: before TLS 1.1
   one block shorter than the MAC, and after it one whose padding takes in everything.
   */
  lemma OverreachingPayloads(seqNum: nat, contentType: Byte)
    ensures var suite := Transparent(16, 0x0301);
            suite.Valid() && ReadSpec(suite, (), seqNum, contentType, Zeros(16)) == Err(OutOfBounds)
    ensures var suite := Transparent(16, 0x0303);
            suite.Valid() && ReadSpec(suite, (), seqNum, contentType, Pads(63)) == Err(OutOfBounds)
  {
    var zeros, pads: seq<Byte> := Zeros(16), Pads(63);
    assert zeros[15] == 0 && pads[63] == 63;
    StripOverreach(Transparent(16, 0x0301), seqNum, contentType, zeros);
    StripOverreach(Transparent(16, 0x0303), seqNum, contentType, pads);
    hide Strip;
  }

  /** Reading what was written, from the same state and counter. */
  lemma ReadWritten<S(!new)>(suite: Suite<S>, state: S, iv: seq<Byte>, seqNum: nat, rec: Record)
    requires suite.Valid() && |iv| == suite.IvLen() && |rec.contents| <= MAX_CONTENT
    requires WriteSpec(suite, state, iv, seqNum, rec).ok
    ensures var w := WriteSpec(suite, state, iv, seqNum, rec);
            && |w.data| >= 5 && w.data[0] == rec.contentType && FromBigEndian(w.data[3..5]) == |w.data| - 5
            && (rec.version < 0x1_0000 ==> FromBigEndian(w.data[1..3]) == rec.version)
            && ReadSpec(suite, state, seqNum, rec.contentType, w.data[5..]) == Ok(rec.contents)
            && Decrypted(suite, state, w.data[5..]).state == w.state
  {
    hide Strip, Payload, BigEndian, FromBigEndian;
    var p := Payload(suite, iv, seqNum, rec.contentType, rec.contents);
    var w := WriteSpec(suite, state, iv, seqNum, rec);
    PayloadShape(suite, iv, seqNum, rec.contentType, rec.contents);
    StripPayload(suite, iv, seqNum, rec.contentType, rec.contents);
    assert w.data[5..] == suite.encrypt(state, p).data;
    assert w.data[3..5] == BigEndian(|p|, 2) && w.data[1..3] == BigEndian(rec.version, 2);
    assert Pow256(2) == 0x1_0000;
    BigEndianRoundTrip(|p|, 2);
    if rec.version < 0x1_0000 {
      BigEndianRoundTrip(rec.version, 2);
    }
  }

  /** A record and the explicit IV drawn for it. */
  datatype Job = Job(iv: seq<Byte>, rec: Record)

  predicate Writable<S(!new)>(suite: Suite<S>, job: Job) {
    |job.iv| == suite.IvLen() && |job.rec.contents| <= MAX_CONTENT
  }

  predicate AllWritable<S(!new)>(suite: Suite<S>, jobs: seq<Job>) {
    forall k :: 0 <= k < |jobs| ==> Writable(suite, jobs[k])
  }

  /** Where a run of writes has come to: cipher state, counter and queue. */
  datatype Run<S> = Run(state: S, seqNum: nat, wires: seq<seq<Byte>>)

  /** A run of writes, or None if the cipher failed in one. */
  function WriteRun<S(!new)>(suite: Suite<S>, state: S, seqNum: nat, jobs: seq<Job>): Option<Run<S>>
    requires suite.blockSize < 256 && AllWritable(suite, jobs)
    decreases |jobs|
  {
    if jobs == [] then Some(Run(state, seqNum, []))
    else
      var w := WriteSpec(suite, state, jobs[0].iv, seqNum, jobs[0].rec);
      if !w.ok then None
      else match WriteRun(suite, w.state, Increment(seqNum), jobs[1..])
           case None => None
           case Some(run) => Some(run.(wires := [w.data] + run.wires))
  }

  /** A run goes on from where it has come to. */
  lemma {:induction false} WriteRunSnoc<S(!new)>(suite: Suite<S>, state: S, seqNum: nat, jobs: seq<Job>, job: Job)
    requires suite.blockSize < 256 && Writable(suite, job) && AllWritable(suite, jobs)
    requires WriteRun(suite, state, seqNum, jobs).Some?
    ensures var run := WriteRun(suite, state, seqNum, jobs).value;
            var w := WriteSpec(suite, run.state, job.iv, run.seqNum, job.rec);
            WriteRun(suite, state, seqNum, jobs + [job])
            == if w.ok then Some(Run(w.state, Increment(run.seqNum), run.wires + [w.data])) else None
    decreases |jobs|
  {
    hide WriteSpec, Increment;
    var all := jobs + [job];
    if jobs == [] {
      var w := WriteSpec(suite, state, job.iv, seqNum, job.rec);
      assert all[0] == job && all[1..] == [];
      assert WriteRun(suite, w.state, Increment(seqNum), all[1..]) == Some(Run(w.state, Increment(seqNum), []));
      assert [w.data] + [] == [] + [w.data];
    } else {
      var w := WriteSpec(suite, state, jobs[0].iv, seqNum, jobs[0].rec);
      assert all[0] == jobs[0] && all[1..] == jobs[1..] + [job];
      WriteRunSnoc(suite, w.state, Increment(seqNum), jobs[1..], job);
      var rest := WriteRun(suite, w.state, Increment(seqNum), jobs[1..]).value;
      var next := WriteSpec(suite, rest.state, job.iv, rest.seqNum, job.rec);
      assert [w.data] + (rest.wires + [next.data]) == [w.data] + rest.wires + [next.data];
    }
  }

  /** The contents a reader takes from a stream of records, or the first error. */
  function ReadRun<S(!new)>(suite: Suite<S>, state: S, seqNum: nat, wires: seq<seq<Byte>>): Result<seq<seq<Byte>>>
    decreases |wires|
  {
    if wires == [] then Ok([])
    else if |wires[0]| < 5 then Err(DecryptionFail)
    else match ReadSpec(suite, state, seqNum, wires[0][0], wires[0][5..])
         case Err(e) => Err(e)
         case Ok(content) =>
           match ReadRun(suite, Decrypted(suite, state, wires[0][5..]).state, Increment(seqNum), wires[1..])
           case Err(e) => Err(e)
           case Ok(rest) => Ok([content] + rest)
  }

  function Contents(jobs: seq<Job>): seq<seq<Byte>> {
    if jobs == [] then [] else [jobs[0].rec.contents] + Contents(jobs[1..])
  }

  /** A reader in the writer's initial state takes back every content, in order. */
  lemma {:induction false} Delivery<S(!new)>(suite: Suite<S>, state: S, seqNum: nat, jobs: seq<Job>)
    requires suite.Valid() && AllWritable(suite, jobs)
    requires WriteRun(suite, state, seqNum, jobs).Some?
    ensures ReadRun(suite, state, seqNum, WriteRun(suite, state, seqNum, jobs).value.wires) == Ok(Contents(jobs))
    decreases |jobs|
  {
    hide ReadSpec, WriteSpec, Increment, Decrypted;
    if jobs != [] {
      var w := WriteSpec(suite, state, jobs[0].iv, seqNum, jobs[0].rec);
      ReadWritten(suite, state, jobs[0].iv, seqNum, jobs[0].rec);
      Delivery(suite, w.state, Increment(seqNum), jobs[1..]);
    }
  }

  // ----- the code -----

  /** The write side of an SSL context. */
  class Writer<S(!new)> {
    const suite: Suite<S>
    const recordWriteQueue: WriteQueue
    var state: S
    var sequenceNum: nat

    ghost const firstState: S
    ghost const firstNum: nat
    ghost var jobs: seq<Job>
    ghost var broken: bool

    /** Until the cipher has failed, cipher state, counter and queue are those of the run of the jobs done. */
    ghost predicate Valid()
      reads this, recordWriteQueue, recordWriteQueue.nodes, set n | n in recordWriteQueue.nodes :: n.data
    {
      && suite.Valid() && recordWriteQueue.Linked()
      && AllWritable(suite, jobs)
      && (!broken ==>
            WriteRun(suite, firstState, firstNum, jobs) == Some(Run(state, sequenceNum, recordWriteQueue.Contents())))
    }

    constructor (suite: Suite<S>, state: S, sequenceNum: nat)
      requires suite.Valid()
      ensures this.suite == suite && this.state == state && this.sequenceNum == sequenceNum
      ensures firstState == state && firstNum == sequenceNum && jobs == [] && !broken
      ensures Valid() && fresh(recordWriteQueue)
    {
      this.suite, this.state, this.sequenceNum := suite, state, sequenceNum;
      this.firstState, this.firstNum, jobs, broken := state, sequenceNum, [], false;
      recordWriteQueue := new WriteQueue();
    }

    /** The explicit IV, when there is one. */
    function Iv(random: Option<seq<Byte>>): (r: seq<Byte>)
      requires random.Some? ==> |random.value| == suite.blockSize
      requires suite.IvLen() > 0 ==> random.Some?
      ensures |r| == suite.IvLen()
    {
      if suite.IvLen() > 0 then random.value else []
    }

    /**
     tls12WriteRecord: the record is filled in and encrypted in place, appended to the
     queue, and counted. `random` is what the generator delivered, if it did, and `macOk`
     whether HMAC did not fail. A call that fails changes neither queue nor counter, and
     only a failing cipher can change the cipher's state.
     */
    method WriteRecord(rec: Record, hasMemory: bool, random: Option<seq<Byte>>, macOk: bool) returns (err: Status)
      requires Valid() && |rec.contents| <= MAX_CONTENT
      requires random.Some? ==> |random.value| == suite.blockSize
      modifies this, recordWriteQueue, recordWriteQueue.nodes
      ensures Valid()
      ensures err == MemFull <==> !hasMemory
      ensures err == RandomFail <==> hasMemory && suite.IvLen() > 0 && random.None?
      ensures err == MacFail <==> hasMemory && (suite.IvLen() > 0 ==> random.Some?) && suite.digestSize > 0 && !macOk
      ensures err in {NoErr, EncryptFail} ==>
                (err == NoErr <==> WriteSpec(suite, old(state), Iv(random), old(sequenceNum), rec).ok)
      ensures err in {NoErr, EncryptFail} ==>
                state == WriteSpec(suite, old(state), Iv(random), old(sequenceNum), rec).state
      ensures err !in {NoErr, EncryptFail} ==> state == old(state)
      ensures err == NoErr ==>
                && jobs == old(jobs) + [Job(Iv(random), rec)] && sequenceNum == Increment(old(sequenceNum))
                && recordWriteQueue.Contents()
                == old(recordWriteQueue.Contents()) + [WriteSpec(suite, old(state), Iv(random), old(sequenceNum), rec).data]
      ensures err != NoErr ==>
                && jobs == old(jobs) && sequenceNum == old(sequenceNum)
                && recordWriteQueue.Contents() == old(recordWriteQueue.Contents())
      ensures broken == (old(broken) || err == EncryptFail)
    {
      hide WriteSpec, WriteRun, Payload, Increment;
      if !hasMemory {
        return MemFull;
      }
      if suite.IvLen() > 0 && random.None? {
        return RandomFail;
      }
      if suite.digestSize > 0 && !macOk {
        return MacFail;
      }
      var out, ok, after := Prepare(suite, state, Iv(random), sequenceNum, rec);
      if !ok {
        state, broken := after, true;
        return EncryptFail;
      }
      Append(out, after, Job(Iv(random), rec));
      return NoErr;
    }

    /** The last steps of a successful write: enqueue, then count the record. */
    method Append(out: WaitingRecord, after: S, ghost job: Job)
      requires Valid() && Writable(suite, job) && out !in recordWriteQueue.nodes && out.next == null
      requires WriteSpec(suite, state, job.iv, sequenceNum, job.rec) == Output(true, after, out.data[..])
      modifies this, recordWriteQueue, recordWriteQueue.nodes
      ensures Valid() && state == after && jobs == old(jobs) + [job] && broken == old(broken)
      ensures sequenceNum == Increment(old(sequenceNum))
      ensures recordWriteQueue.Contents() == old(recordWriteQueue.Contents()) + [out.data[..]]
    {
      hide WriteSpec, WriteRun, Increment;
      if !broken {
        WriteRunSnoc(suite, firstState, firstNum, jobs, job);
      }
      recordWriteQueue.Enqueue(out);
      state, sequenceNum := after, Increment(sequenceNum);
      jobs := jobs + [job];
    }
  }

  /** A queue entry of the right size, filled. */
  method Prepare<S(!new)>(suite: Suite<S>, state: S, iv: seq<Byte>, seqNum: nat, rec: Record)
    returns (out: WaitingRecord, ok: bool, after: S)
    requires suite.Valid() && |iv| == suite.IvLen() && |rec.contents| <= MAX_CONTENT
    ensures fresh(out) && fresh(out.data) && out.next == null
    ensures Output(ok, after, out.data[..]) == WriteSpec(suite, state, iv, seqNum, rec)
  {
    hide WriteSpec, Payload, Padding;
    var size, padding := PayloadSize(suite, rec);
    out := new WaitingRecord(5 + size);
    ok, after := FillRecord(suite, state, iv, seqNum, rec, padding, out.data);
  }

  /** Header and payload, the latter encrypted in place. */
  method FillRecord<S(!new)>(suite: Suite<S>, state: S, iv: seq<Byte>, seqNum: nat, rec: Record, padding: nat, data: array<Byte>)
    returns (ok: bool, after: S)
    requires suite.Valid() && |iv| == suite.IvLen()
    requires suite.blockSize > 0 ==> padding == Padding(suite.blockSize, |iv| + |rec.contents| + suite.digestSize)
    requires data.Length == 5 + |Payload(suite, iv, seqNum, rec.contentType, rec.contents)|
    modifies data
    ensures Output(ok, after, data[..]) == WriteSpec(suite, state, iv, seqNum, rec)
  {
    hide Payload, BigEndian, Padding;
    var header := [rec.contentType] + BigEndian(rec.version, 2) + BigEndian(data.Length - 5, 2);
    CopyInto(data, 0, header);
    assert data[..5] == header;
    FillPayload(suite, iv, seqNum, rec, padding, data);
    assert data[..5] == header && data[5..] == Payload(suite, iv, seqNum, rec.contentType, rec.contents);
    var sealed := suite.encrypt(state, data[5..]);
    CopyInto(data, 5, sealed.data);
    return sealed.ok, sealed.state;
  }

  function PayloadLength<S(!new)>(suite: Suite<S>, len: nat): nat
    requires suite.blockSize < 256
  {
    var n := suite.IvLen() + len + suite.digestSize;
    if suite.blockSize == 0 then n else n + Padding(suite.blockSize, n) + 1
  }

  lemma PayloadHasLength<S(!new)>(suite: Suite<S>, iv: seq<Byte>, seqNum: nat, contentType: Byte, contents: seq<Byte>)
    requires suite.Valid() && |iv| == suite.IvLen()
    ensures |Payload(suite, iv, seqNum, contentType, contents)| == PayloadLength(suite, |contents|)
  {
    hide MacInput, Padding;
    assert |suite.mac(MacInput(suite.version, seqNum, contentType, contents))| == suite.digestSize;
  }

  /** Size of the payload in 16 bits, and value of the padding octets. */
  method PayloadSize<S(!new)>(suite: Suite<S>, rec: Record) returns (size: nat, padding: nat)
    requires suite.Valid() && |rec.contents| <= MAX_CONTENT
    ensures suite.blockSize > 0 ==> padding == Padding(suite.blockSize, suite.IvLen() + |rec.contents| + suite.digestSize)
    ensures forall iv, seqNum :: |iv| == suite.IvLen() ==> size == |Payload(suite, iv, seqNum, rec.contentType, rec.contents)|
  {
    hide Padding, Payload;
    forall iv, seqNum | |iv| == suite.IvLen()
      ensures |Payload(suite, iv, seqNum, rec.contentType, rec.contents)| == PayloadLength(suite, |rec.contents|)
    {
      PayloadHasLength(suite, iv, seqNum, rec.contentType, rec.contents);
    }
    size, padding := (suite.IvLen() + |rec.contents| + suite.digestSize) % 0x1_0000, 0;
    if suite.blockSize > 0 {
      padding := Padding(suite.blockSize, size);
      size := (size + padding + 1) % 0x1_0000;
    }
  }

  /** Lays out explicit IV, content, MAC and padding behind the header. */
  method FillPayload<S(!new)>(suite: Suite<S>, iv: seq<Byte>, seqNum: nat, rec: Record, padding: nat, data: array<Byte>)
    requires suite.Valid() && |iv| == suite.IvLen()
    requires suite.blockSize > 0 ==> padding == Padding(suite.blockSize, |iv| + |rec.contents| + suite.digestSize)
    requires data.Length == 5 + |Payload(suite, iv, seqNum, rec.contentType, rec.contents)|
    modifies data
    ensures data[..] == old(data[..5]) + Payload(suite, iv, seqNum, rec.contentType, rec.contents)
  {
    hide MacInput, Payload, Padding;
    PayloadDef(suite, iv, seqNum, rec.contentType, rec.contents);
    var mac := suite.mac(MacInput(suite.version, seqNum, rec.contentType, rec.contents));
    var front := iv + rec.contents + mac;
    CopyInto(data, 5, front);
    assert data[..5 + |front|] == old(data[..5]) + front;
    if suite.blockSize > 0 {
      FillPadding(data, 5 + |front|, padding);
    } else {
      assert data[..] == data[..5 + |front|];
    }
  }

  lemma PayloadDef<S(!new)>(suite: Suite<S>, iv: seq<Byte>, seqNum: nat, contentType: Byte, contents: seq<Byte>)
    requires suite.Valid() && |iv| == suite.IvLen()
    ensures var body := iv + contents + suite.mac(MacInput(suite.version, seqNum, contentType, contents));
            Payload(suite, iv, seqNum, contentType, contents)
            == if suite.blockSize == 0 then body else body + Pads(Padding(suite.blockSize, |body|))
  {
  }

  /** The padding loop of tls12WriteRecord, from the end of the buffer backwards. */
  method FillPadding(payload: array<Byte>, body: nat, padding: Byte)
    requires payload.Length == body + padding + 1
    modifies payload
    ensures payload[..] == old(payload[..body]) + Pads(padding)
  {
    var size, i := payload.Length, 1;
    while i <= padding + 1
      invariant 1 <= i <= padding + 2
      invariant forall k :: 0 <= k < body ==> payload[k] == old(payload[k])
      invariant forall k :: size - i < k < size ==> payload[k] == padding
    {
      payload[size - i] := padding;
      i := i + 1;
    }
  }

  /** The padding loop of tls12DecryptRecord. */
  method CheckPadding(p: array<Byte>) returns (ok: bool)
    requires p.Length > 0
    ensures ok <==> PaddingOk(p[..])
  {
    var padSize := p[p.Length - 1];
    if padSize > p.Length {
      return false;
    }
    var at := p.Length - padSize;
    while at < p.Length
      invariant p.Length - padSize <= at <= p.Length
      invariant forall k :: p.Length - padSize <= k < at ==> p[k] == padSize
    {
      if p[at] != padSize {
        return false;
      }
      at := at + 1;
    }
    return true;
  }

  /** The read side of an SSL context. */
  class Reader<S(!new)> {
    const suite: Suite<S>
    var state: S
    var sequenceNum: nat

    constructor (suite: Suite<S>, state: S, sequenceNum: nat)
      ensures this.suite == suite && this.state == state && this.sequenceNum == sequenceNum
    {
      this.suite, this.state, this.sequenceNum := suite, state, sequenceNum;
    }

    /**
     tls12DecryptRecord: decrypts in place and returns where the content lies. Where
     the code would reach outside the payload the result is `OutOfBounds`.
     */
    method DecryptRecord(contentType: Byte, payload: array<Byte>) returns (r: Result<Span>)
      requires suite.Valid()
      modifies this`state, payload
      ensures match ReadSpec(suite, old(state), sequenceNum, contentType, old(payload[..]))
              case Err(e) => r == Err(e)
              case Ok(content) =>
                && r.Ok? && r.value.off + r.value.len <= payload.Length
                && payload[r.value.off..r.value.off + r.value.len] == content
      ensures var p := Decrypted(suite, old(state), old(payload[..]));
              state == p.state && payload[..] == p.data
    {
      hide Strip;
      if suite.blockSize > 0 && payload.Length % suite.blockSize != 0 {
        return Err(RecordOverflow);
      }
      var plain := suite.decrypt(state, payload[..]);
      state := plain.state;
      CopyInto(payload, 0, plain.data);
      assert payload[..] == plain.data;
      if !plain.ok {
        return Err(DecryptionFail);
      }
      r := StripRecord(contentType, payload);
    }

    /** The part of tls12DecryptRecord after decryption. */
    method StripRecord(contentType: Byte, payload: array<Byte>) returns (r: Result<Span>)
      requires suite.Valid()
      ensures match Strip(suite, sequenceNum, contentType, payload[..])
              case Err(e) => r == Err(e)
              case Ok(content) =>
                && r.Ok? && r.value.off + r.value.len <= payload.Length
                && payload[r.value.off..r.value.off + r.value.len] == content
    {
      hide MacInput, ContentSpan;
      r := FindContent(payload);
      if r.Err? {
        return;
      }
      var Span(off, len) := r.value;
      var content, found := payload[off..off + len], payload[off + len..off + len + suite.digestSize];
      assert content == payload[..][off..off + len];
      assert found == payload[..][off + len..off + len + suite.digestSize];
      if suite.digestSize > 0 {
        var mac := suite.mac(MacInput(suite.version, sequenceNum, contentType, content));
        if mac != found {
          return Err(BadRecordMac);
        }
      }
    }

    /** Length checks, explicit IV and padding. */
    method FindContent(payload: array<Byte>) returns (r: Result<Span>)
      ensures r == ContentSpan(suite, payload[..])
    {
      hide PaddingOk;
      var blockSize, digestSize := suite.blockSize, suite.digestSize;
      var off, len := 0, payload.Length - digestSize;
      if blockSize > 0 {
        if suite.version >= TLS_1_1 {
          if payload.Length < blockSize + 1 + digestSize {
            return Err(DecryptionFail);
          }
          off, len := off + blockSize, len - blockSize;
        }
        if payload.Length == 0 {
          return Err(OutOfBounds);
        }
        var padSize := payload[payload.Length - 1];
        var ok := CheckPadding(payload);
        if !ok {
          return Err(DecryptionFail);
        }
        len := len - (1 + padSize as int);
      }
      if len < 0 {
        return Err(OutOfBounds);
      }
      return Ok(Span(off, len));
    }
  }
}
