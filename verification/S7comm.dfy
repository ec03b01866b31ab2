/**
 S7comm over COTP over TPKT (tools/s7comm-dpi/src: tpkt.rs, cotp.rs, s7.rs, lib.rs) and the job encoder of
 tools/make_captures.py. TPKT is section 6 of RFC 1006.
 */
module S7comm {

  import opened Octets
  import opened Results
  import opened Framing

  // ---------------------------------------------------------------------------------------------------------
  // TPKT
  // ---------------------------------------------------------------------------------------------------------

  datatype TpktError = Incomplete(needed: nat) | BadVersion(version: octet) | BadLength(length: nat)

  /** A TPKT length field and the COTP octets it delimits. */
  datatype Tpkt = Tpkt(length: nat, payload: seq<octet>)

  function ParseTpkt(bytes: seq<octet>): Result<Tpkt, TpktError> {
    if |bytes| < 4 then Err(Incomplete(4))
    else if bytes[0] != 0x03 then Err(BadVersion(bytes[0]))
    else
      var length := BigEndian16(bytes[2], bytes[3]);
      if length < 7 then Err(BadLength(length))
      else if |bytes| < length then Err(Incomplete(length))
      else Ok(Tpkt(length, bytes[4..length]))
  }

  // ---------------------------------------------------------------------------------------------------------
  // COTP
  // ---------------------------------------------------------------------------------------------------------

  const PDU_DT: octet := 0xF0

  datatype CotpHeader = CotpHeader(pduType: octet, headerLen: nat)

  function ParseCotp(bytes: seq<octet>): (r: Option<CotpHeader>)
    ensures r.Some? ==> 3 <= r.value.headerLen <= |bytes|
  {
    if bytes == [] then None
    else
      var indicator: nat := bytes[0];
      if indicator < 2 || |bytes| < 1 + indicator then None
      else Some(CotpHeader(bytes[1] / 0x10 * 0x10, 1 + indicator))
  }

  // ---------------------------------------------------------------------------------------------------------
  // S7
  // ---------------------------------------------------------------------------------------------------------

  datatype S7Header =
    S7Header(rosctr: octet, pduReference: nat, parameterLength: nat, dataLength: nat, functionCode: octet)

  function ParseS7(bytes: seq<octet>): Option<S7Header> {
    if |bytes| <= 10 || bytes[0] != 0x32 then None
    else Some(S7Header(bytes[1], BigEndian16(bytes[4], bytes[5]), BigEndian16(bytes[6], bytes[7]),
                       BigEndian16(bytes[8], bytes[9]), bytes[10]))
  }

  // ---------------------------------------------------------------------------------------------------------
  // Frames
  // ---------------------------------------------------------------------------------------------------------

  datatype ParseError = TpktFailed(error: TpktError) | CotpFailed

  datatype S7CommFrame = S7CommFrame(tpktLength: nat, cotpType: octet, s7: Option<S7Header>)

  function Decode(bytes: seq<octet>): Result<Decoded<S7CommFrame>, ParseError> {
    match ParseTpkt(bytes)
    case Err(e) => Err(TpktFailed(e))
    case Ok(tpkt) =>
      match ParseCotp(tpkt.payload)
      case None => Err(CotpFailed)
      case Some(cotp) =>
        var s7 := if cotp.pduType == PDU_DT then ParseS7(tpkt.payload[cotp.headerLen..]) else None;
        Ok(Decoded(S7CommFrame(tpkt.length, cotp.pduType, s7), tpkt.length))
  }

  const LEAST: nat := 7

  function Needed(e: ParseError): Option<nat> {
    if e.TpktFailed? && e.error.Incomplete? then Some(e.error.needed) else None
  }

  /** The frame decoder meets all three conditions of the stream theorems, with frames of at least seven octets. */
  lemma FrameDelimiting()
    ensures SelfDelimiting(Decode, Needed, LEAST)
  {
    Consuming();
    forall b, more | Decode(b).Ok? || Needed(Decode(b).error).None?
      ensures Decode(b + more) == Decode(b)
    {
      if |b| >= 4 && |b| >= BigEndian16(b[2], b[3]) >= 4 {
        assert (b + more)[4..BigEndian16(b[2], b[3])] == b[4..BigEndian16(b[2], b[3])];
      }
    }
    forall b, size: int | Decode(b).Ok? && 0 <= size < Decode(b).value.consumed <= |b|
      ensures AsksForMore(Decode(b[..size]), Needed, size, Decode(b).value.consumed)
    {
    }
  }

  lemma Consuming()
    ensures Consumes(Decode, LEAST)
  {
  }

  // ---------------------------------------------------------------------------------------------------------
  // Frames octet by octet
  // ---------------------------------------------------------------------------------------------------------

  /** A 16-bit field, high octet first. */
  function HighFirst(hi: octet, lo: octet): nat {
    0x100 * hi as nat + lo as nat
  }

  /** The TPKT header is there, has the right version, and announces a length that is there too. */
  predicate Framed(bytes: seq<octet>) {
    |bytes| >= 4 && bytes[0] == 0x03 && 7 <= HighFirst(bytes[2], bytes[3]) <= |bytes|
  }

  /** The COTP header, whose first octet counts the others, fits the TPKT. */
  predicate HeaderFits(bytes: seq<octet>)
    requires Framed(bytes)
  {
    bytes[4] >= 2 && 5 + bytes[4] as nat <= HighFirst(bytes[2], bytes[3])
  }

  /** When a frame is refused, and why. */
  lemma RefusedIff(bytes: seq<octet>)
    ensures forall needed ::
              Decode(bytes) == Err(TpktFailed(Incomplete(needed)))
              <==> || (|bytes| < 4 && needed == 4)
                   || (|bytes| >= 4 && bytes[0] == 0x03 && 7 <= needed == HighFirst(bytes[2], bytes[3]) && |bytes| < needed)
    ensures forall v :: Decode(bytes) == Err(TpktFailed(BadVersion(v))) <==> |bytes| >= 4 && v == bytes[0] != 0x03
    ensures forall n ::
              Decode(bytes) == Err(TpktFailed(BadLength(n)))
              <==> |bytes| >= 4 && bytes[0] == 0x03 && n == HighFirst(bytes[2], bytes[3]) < 7
    ensures Decode(bytes) == Err(CotpFailed) <==> Framed(bytes) && !HeaderFits(bytes)
  {
    hide ParseS7;
  }

  /** The S7 header starts right after the COTP header; only a data PDU that opens with 0x32 has one. */
  ghost predicate Described(bytes: seq<octet>, frame: S7CommFrame)
    requires Framed(bytes) && HeaderFits(bytes)
  {
    var size, p: nat := HighFirst(bytes[2], bytes[3]), 5 + bytes[4] as nat;
    && frame.tpktLength == size
    && frame.cotpType == bytes[5] - bytes[5] % 0x10
    && (frame.s7.Some? <==> 0xF0 <= bytes[5] && p + 10 < size && bytes[p] == 0x32)
    && (frame.s7.Some? ==>
          && frame.s7.value.rosctr == bytes[p + 1]
          && frame.s7.value.pduReference == HighFirst(bytes[p + 4], bytes[p + 5])
          && frame.s7.value.parameterLength == HighFirst(bytes[p + 6], bytes[p + 7])
          && frame.s7.value.dataLength == HighFirst(bytes[p + 8], bytes[p + 9])
          && frame.s7.value.functionCode == bytes[p + 10])
  }

  /** An accepted frame takes the octets its TPKT announces, and its fields stand where the headers put them. */
  lemma AcceptedIff(bytes: seq<octet>, d: Decoded<S7CommFrame>)
    ensures Decode(bytes) == Ok(d)
       <==> Framed(bytes) && HeaderFits(bytes) && d.consumed == d.frame.tpktLength && Described(bytes, d.frame)
  {
    if Framed(bytes) && HeaderFits(bytes) {
      var size, p: nat := HighFirst(bytes[2], bytes[3]), 5 + bytes[4] as nat;
      var payload := bytes[4..size];
      assert ParseTpkt(bytes) == Ok(Tpkt(size, payload));
      assert payload[p - 4..] == bytes[p..size];
      HeaderAt(bytes, p, size);
    }
  }

  lemma HeaderAt(bytes: seq<octet>, p: nat, size: nat)
    requires p <= size <= |bytes|
    ensures ParseS7(bytes[p..size])
         == if p + 10 < size && bytes[p] == 0x32
            then Some(S7Header(bytes[p + 1], HighFirst(bytes[p + 4], bytes[p + 5]),
                               HighFirst(bytes[p + 6], bytes[p + 7]), HighFirst(bytes[p + 8], bytes[p + 9]),
                               bytes[p + 10]))
            else None
  {
  }

  method ParseStream(bytes: seq<octet>) returns (frames: seq<Result<S7CommFrame, ParseError>>)
    ensures Consumes(Decode, LEAST) && frames == Stream(Decode, LEAST, bytes)
  {
    Consuming();
    hide Decode;
    frames := [];
    var offset := 0;
    assert bytes[0..] == bytes;
    while offset < |bytes|
      invariant offset <= |bytes|
      invariant frames + Stream(Decode, LEAST, bytes[offset..]) == Stream(Decode, LEAST, bytes)
    {
      match Decode(bytes[offset..])
      case Ok(d) =>
        assert bytes[offset..][d.consumed..] == bytes[offset + d.consumed..];
        frames := frames + [Ok(d.frame)];
        offset := offset + d.consumed;
      case Err(e) =>
        frames := frames + [Err(e)];
        return;
    }
    assert frames + [] == frames;
  }

  // ---------------------------------------------------------------------------------------------------------
  // The job encoder
  // ---------------------------------------------------------------------------------------------------------

  /** What the encoder raises: a function code that is no octet, or a length that does not fit its field. */
  datatype EncodeError = ValueError | OverflowError

  function S7CommJob(functionCode: int, extraParams: seq<octet>, data: seq<octet>): Result<seq<octet>, EncodeError> {
    if !(0 <= functionCode < 0x100) then Err(ValueError)
    else
      var params: seq<octet> := [functionCode] + extraParams;
      if |params| > 0xFFFF || |data| > 0xFFFF then Err(OverflowError)
      else
        var s7: seq<octet> := [0x32, 0x01, 0x00, 0x00, 0x00, 0x01]
          + BigEndian16Octets(|params|) + BigEndian16Octets(|data|) + params + data;
        var cotp: seq<octet> := [0x02, 0xF0, 0x80];
        var total := 4 + |cotp| + |s7|;
        if total > 0xFFFF then Err(OverflowError)
        else Ok([0x03, 0x00] + BigEndian16Octets(total) + cotp + s7)
  }

  /**
   A job is encoded when its function code is an octet and the whole fits a TPKT length. It carries the function
   code at offset 17 and what it was given after it, and decodes, whatever follows it, to that code and the lengths it
   was built with.
   */
  lemma JobDecodes(functionCode: int, extraParams: seq<octet>, data: seq<octet>, more: seq<octet>)
    ensures var total := 18 + |extraParams| + |data|;
            var r := S7CommJob(functionCode, extraParams, data);
            && (r.Ok? <==> 0 <= functionCode < 0x100 && total <= 0xFFFF)
            && (r.Ok? ==>
                && |r.value| == total && r.value[17] == functionCode && r.value[18..] == extraParams + data
                && Decode(r.value + more) == Ok(Decoded(S7CommFrame(total, PDU_DT,
                     Some(S7Header(1, 1, 1 + |extraParams|, |data|, functionCode))), total)))
  {
    var r := S7CommJob(functionCode, extraParams, data);
    if r.Ok? {
      JobLayout(functionCode, extraParams, data);
      hide S7CommJob;
      LayoutDecodes(r.value, more);
    }
  }

  lemma JobLayout(functionCode: int, extraParams: seq<octet>, data: seq<octet>)
    requires S7CommJob(functionCode, extraParams, data).Ok?
    ensures var job := S7CommJob(functionCode, extraParams, data).value;
            && |job| == 18 + |extraParams| + |data| <= 0xFFFF
            && job[0] == 0x03 && BigEndian16(job[2], job[3]) == |job|
            && job[4] == 0x02 && job[5] == 0xF0
            && job[7] == 0x32 && job[8] == 0x01 && BigEndian16(job[11], job[12]) == 1
            && BigEndian16(job[13], job[14]) == 1 + |extraParams|
            && BigEndian16(job[15], job[16]) == |data| && job[17] == functionCode
            && job[18..] == extraParams + data
  {
    hide BigEndian16, BigEndian16Octets;
    var job := S7CommJob(functionCode, extraParams, data).value;
    var size, params, rest := BigEndian16Octets(|job|), BigEndian16Octets(1 + |extraParams|), BigEndian16Octets(|data|);
    var head: seq<octet> := [0x03, 0x00, size[0], size[1], 0x02, 0xF0, 0x80, 0x32, 0x01, 0x00, 0x00, 0x00, 0x01,
                             params[0], params[1], rest[0], rest[1], functionCode];
    assert size == [size[0], size[1]] && params == [params[0], params[1]] && rest == [rest[0], rest[1]];
    assert job == head + (extraParams + data);
    One();
  }

  lemma One()
    ensures BigEndian16(0x00, 0x01) == 1
  {
  }

  // Eighteen octets laid out like this decode as a data PDU, whatever follows.
  lemma LayoutDecodes(job: seq<octet>, more: seq<octet>)
    requires 18 <= |job| <= 0xFFFF && job[0] == 0x03 && BigEndian16(job[2], job[3]) == |job|
    requires job[4] == 0x02 && job[5] == 0xF0 && job[7] == 0x32
    ensures Decode(job + more) == Ok(Decoded(S7CommFrame(|job|, PDU_DT,
              Some(S7Header(job[8], BigEndian16(job[11], job[12]), BigEndian16(job[13], job[14]),
                            BigEndian16(job[15], job[16]), job[17]))), |job|))
  {
    var payload := (job + more)[4..|job|];
    assert payload == job[4..];
    assert ParseTpkt(job + more) == Ok(Tpkt(|job|, job[4..]));
    assert ParseCotp(job[4..]) == Some(CotpHeader(PDU_DT, 3));
    assert job[4..][3..] == job[7..];
  }

  datatype Job = Job(functionCode: int, extraParams: seq<octet>, data: seq<octet>)

  predicate Encodable(j: Job) {
    S7CommJob(j.functionCode, j.extraParams, j.data).Ok?
  }

  function Encoded(j: Job): seq<octet>
    requires Encodable(j)
  {
    S7CommJob(j.functionCode, j.extraParams, j.data).value
  }

  function FrameOf(j: Job): S7CommFrame
    requires Encodable(j)
  {
    S7CommFrame(18 + |j.extraParams| + |j.data|, PDU_DT,
                Some(S7Header(1, 1, 1 + |j.extraParams|, |j.data|, j.functionCode)))
  }

  function EncodedAll(jobs: seq<Job>): seq<octet>
    requires forall j :: j in jobs ==> Encodable(j)
  {
    if jobs == [] then [] else Encoded(jobs[0]) + EncodedAll(jobs[1..])
  }

  function FramesOf(jobs: seq<Job>): seq<Result<S7CommFrame, ParseError>>
    requires forall j :: j in jobs ==> Encodable(j)
  {
    if jobs == [] then [] else [Ok(FrameOf(jobs[0]))] + FramesOf(jobs[1..])
  }

  lemma JobThenRest(j: Job, rest: seq<octet>)
    requires Encodable(j) && Consumes(Decode, LEAST)
    ensures Stream(Decode, LEAST, Encoded(j) + rest) == [Ok(FrameOf(j))] + Stream(Decode, LEAST, rest)
  {
    hide Decode, S7CommJob;
    JobDecodes(j.functionCode, j.extraParams, j.data, rest);
    assert (Encoded(j) + rest)[|Encoded(j)|..] == rest;
  }

  /** Encoded jobs in a row are decoded one by one, and decoding goes on with whatever follows them. */
  lemma {:induction false} JobsStream(jobs: seq<Job>, more: seq<octet>)
    requires forall j :: j in jobs ==> Encodable(j)
    ensures Consumes(Decode, LEAST)
    ensures Stream(Decode, LEAST, EncodedAll(jobs) + more) == FramesOf(jobs) + Stream(Decode, LEAST, more)
  {
    Consuming();
    hide Decode, Encoded, Encodable, Stream, FrameOf, Consumes;
    if jobs == [] {
      assert [] + more == more;
    } else {
      JobThenRest(jobs[0], EncodedAll(jobs[1..]) + more);
      assert EncodedAll(jobs) + more == Encoded(jobs[0]) + (EncodedAll(jobs[1..]) + more);
      JobsStream(jobs[1..], more);
    }
  }
}
