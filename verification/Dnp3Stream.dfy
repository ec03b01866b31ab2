/**
 The DNP3 stream loop (`parse_stream`, tools/dnp3-dpi/src/lib.rs), on top of the link decoder.
 */
module Dnp3Stream {

  import opened Octets
  import opened Results
  import opened Framing
  import opened Dnp3Link
  import Crc

  const LEAST: nat := 10

  function Needed(e: LinkError): Option<nat> {
    if e.Incomplete? then Some(e.needed) else None
  }

  lemma Consuming()
    ensures Consumes(Decode, LEAST)
  {
    forall b | Decode(b).Ok?
      ensures 0 < LEAST <= Decode(b).value.consumed <= |b|
    {
      ConsumedBounds(b);
    }
  }

  /** The link decoder meets all three conditions of the stream theorems. */
  lemma LinkFraming()
    ensures SelfDelimiting(Decode, Needed, LEAST)
  {
    hide Decode;
    Consuming();
    forall b, more | Decode(b).Ok? || Needed(Decode(b).error).None?
      ensures Decode(b + more) == Decode(b)
    {
      DecodeExtended(b, more);
    }
    forall b, size: int | Decode(b).Ok? && 0 <= size < Decode(b).value.consumed <= |b|
      ensures AsksForMore(Decode(b[..size]), Needed, size, Decode(b).value.consumed)
    {
      PrefixIncomplete(b, size);
    }
  }

  method ParseStream(bytes: seq<octet>) returns (frames: seq<Result<LinkFrame, LinkError>>)
    ensures Consumes(Decode, LEAST) && frames == Stream(Decode, LEAST, bytes)
  {
    hide Decode;
    Consuming();
    frames := [];
    var offset := 0;
    assert bytes[0..] == bytes;
    while offset < |bytes|
      invariant offset <= |bytes|
      invariant frames + Stream(Decode, LEAST, bytes[offset..]) == Stream(Decode, LEAST, bytes)
    {
      var r := ParseFrame(bytes[offset..]);
      match r
      case Ok(d) =>
        assert bytes[offset..][d.consumed..] == bytes[offset + d.consumed..];
        frames := frames + [Ok(d.frame)];
        offset := offset + d.consumed;
      case Err(e) =>
        frames := frames + [Err(e)];
        return;
    }
    assert frames + [] == frames;
  }

  // ---------------------------------------------------------------------------------------------------------
  // Streams of encoded frames
  // ---------------------------------------------------------------------------------------------------------

  function EncodeAll(frames: seq<LinkFrame>): seq<octet>
    requires forall f :: f in frames ==> Encodable(f)
  {
    if frames == [] then [] else EncodeFrame(frames[0]) + EncodeAll(frames[1..])
  }

  function AsOk(frames: seq<LinkFrame>): seq<Result<LinkFrame, LinkError>> {
    if frames == [] then [] else [Ok(frames[0])] + AsOk(frames[1..])
  }

  /** A stream decodes to exactly these frames, with no error, when it is their encodings one after the other. */
  lemma StreamIffEncoded(bytes: seq<octet>, frames: seq<LinkFrame>)
    ensures Consumes(Decode, LEAST)
    ensures Stream(Decode, LEAST, bytes) == AsOk(frames)
       <==> (forall f :: f in frames ==> Encodable(f)) && bytes == EncodeAll(frames)
  {
    hide Decode, EncodeFrame, Encodable;
    Consuming();
    if Stream(Decode, LEAST, bytes) == AsOk(frames) {
      StreamIsEncoded(bytes, frames);
    }
    if (forall f :: f in frames ==> Encodable(f)) && bytes == EncodeAll(frames) {
      EncodedStreams(frames);
    }
  }

  lemma {:induction false} StreamIsEncoded(bytes: seq<octet>, frames: seq<LinkFrame>)
    requires Consumes(Decode, LEAST)
    requires Stream(Decode, LEAST, bytes) == AsOk(frames)
    ensures (forall f :: f in frames ==> Encodable(f)) && bytes == EncodeAll(frames)
    decreases |frames|
  {
    hide Decode, EncodeFrame, Encodable;
    if frames != [] {
      var d := FirstOfStream(bytes, frames);
      DecodeIffEncoded(bytes, d.frame, d.consumed);
      StreamIsEncoded(bytes[d.consumed..], frames[1..]);
      assert bytes == bytes[..d.consumed] + bytes[d.consumed..];
      assert forall f :: f in frames ==> f == frames[0] || f in frames[1..];
    }
  }

  lemma FirstOfStream(bytes: seq<octet>, frames: seq<LinkFrame>) returns (d: Decoded<LinkFrame>)
    requires Consumes(Decode, LEAST)
    requires frames != [] && Stream(Decode, LEAST, bytes) == AsOk(frames)
    ensures Decode(bytes) == Ok(d) && d.frame == frames[0]
    ensures Stream(Decode, LEAST, bytes[d.consumed..]) == AsOk(frames[1..])
  {
    hide Decode;
    var s := Stream(Decode, LEAST, bytes);
    assert s[0] == Ok(frames[0]) && s[1..] == AsOk(frames[1..]);
    d := Decode(bytes).value;
    assert s[1..] == Stream(Decode, LEAST, bytes[d.consumed..]);
  }

  lemma {:induction false} EncodedStreams(frames: seq<LinkFrame>)
    requires Consumes(Decode, LEAST)
    requires forall f :: f in frames ==> Encodable(f)
    ensures Stream(Decode, LEAST, EncodeAll(frames)) == AsOk(frames)
  {
    hide Decode, Encodable;
    if frames != [] {
      var bytes := EncodeAll(frames);
      var size := |EncodeFrame(frames[0])|;
      assert bytes[..size] == EncodeFrame(frames[0]) && bytes[size..] == EncodeAll(frames[1..]);
      DecodeIffEncoded(bytes, frames[0], size);
      EncodedStreams(frames[1..]);
    }
  }

  // ---------------------------------------------------------------------------------------------------------
  // The encoder of the Rust tests
  // ---------------------------------------------------------------------------------------------------------

  /** Its length octet is cast to eight bits, so it wraps where the Python encoder raises. */
  function Built(control: octet, destination: Crc.u16, source: Crc.u16, userData: seq<octet>): seq<octet> {
    WithCrc([0x05, 0x64, (MIN_LENGTH + |userData|) % 0x100, control] + Address(destination) + Address(source))
    + EncodeBlocks(userData)
  }

  function Address(n: Crc.u16): (s: seq<octet>)
    ensures |s| == 2
  {
    AddressFits();
    LittleEndianOctets(n, 2)
  }

  lemma AddressFits()
    ensures Pow256(2) == 0x1_0000
  {
  }

  method BuildFrame(control: octet, destination: Crc.u16, source: Crc.u16, userData: seq<octet>)
    returns (frame: seq<octet>)
    ensures frame == Built(control, destination, source, userData)
  {
    hide BodySize, WithCrc, Crc.Crc16, LittleEndianOctets, EncodeBlocks;
    var length := (MIN_LENGTH + |userData|) % 0x100;
    var header: seq<octet> := [0x05, 0x64, length, control] + Address(destination) + Address(source);
    var crc := Crc.Compute(header);
    CrcOctets(header, crc);
    frame := header + LittleEndianOctets(crc, 2);
    var index := 0;
    assert userData[0..] == userData;
    while index < |userData|
      invariant index <= |userData|
      invariant frame + EncodeBlocks(userData[index..]) == Built(control, destination, source, userData)
    {
      var end := Min(index + MAX_BLOCK, |userData|);
      var chunk := userData[index..end];
      crc := Crc.Compute(chunk);
      BlockWritten(frame, userData, index, crc);
      frame := frame + (chunk + LittleEndianOctets(crc, 2));
      index := end;
    }
    NothingLeft(frame);
  }

  lemma BuiltHeader(control: octet, destination: Crc.u16, source: Crc.u16, userData: seq<octet>)
    ensures |Built(control, destination, source, userData)| >= 10
    ensures Built(control, destination, source, userData)[2] == (5 + |userData|) % 0x100
  {
    hide EncodeBlocks, Address, WithCrc, BodySize;
    var header: seq<octet> := [0x05, 0x64, (MIN_LENGTH + |userData|) % 0x100, control]
                              + Address(destination) + Address(source);
    LengthOctet(header);
  }

  lemma LengthOctet(header: seq<octet>)
    requires |header| == 8
    ensures |WithCrc(header)| == 10 && WithCrc(header)[2] == header[2]
  {
    hide WithCrc;
    WithCrcChecks(header);
    WithCrcPrefix(header);
    assert WithCrc(header)[2] == WithCrc(header)[..8][2] == header[2];
  }

  /** What it builds decodes to what it was given exactly when the length octet did not wrap. */
  lemma BuiltReadsBack(control: octet, destination: Crc.u16, source: Crc.u16, userData: seq<octet>)
    ensures var frame, built := LinkFrame(FromOctet(control), destination, source, userData),
                                Built(control, destination, source, userData);
            Decode(built) == Ok(Decoded(frame, |built|)) <==> |userData| <= 250
    ensures |Built(control, destination, source, userData)| >= 10
    ensures Built(control, destination, source, userData)[2] == (5 + |userData|) % 0x100
  {
    hide BodySize, WithCrc, Decode, LittleEndianOctets, EncodeBlocks, FromOctet, ControlOctet;
    var frame, built := LinkFrame(FromOctet(control), destination, source, userData),
                        Built(control, destination, source, userData);
    ControlInverse(control, FromOctet(control));
    BuiltHeader(control, destination, source, userData);
    DecodeIffEncoded(built, frame, |built|);
    if |userData| <= 250 {
      assert built == EncodeFrame(frame) && built[..|built|] == built;
    }
  }
}
