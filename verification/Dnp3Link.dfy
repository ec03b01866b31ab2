/**
 The DNP3 link layer (tools/dnp3-dpi/src/link.rs) and the independent encoder of tools/make_captures.py.

 `ParseFrame` is the decoder's loop and `Dnp3Frame` the encoder's; `Decode` and `EncodeFrame` are the functions they
 are proved against. The main results: a decode succeeds with a frame exactly on the buffers that start with that
 frame's encoding (`DecodeIffEncoded`), whose octets are where `AcceptedLayout` says; every error has exactly its cause
 (`BadStartIff`, `BadLengthIff`, `IncompleteIff`, `DecodeCases`); no change confined to 16 consecutive bits of an
 accepted frame is accepted (`BurstRejected`), and no change of an odd number of bits is, unless it moves the end of the
 frame (`OddRejected`, `OddRejectedIff`).
 */
module Dnp3Link {

  import opened Arithmetic
  import opened Octets
  import opened Results
  import opened Framing
  import Crc

  const HEADER_LEN: nat := 8
  const MAX_BLOCK: nat := 16
  const MIN_LENGTH: nat := 5

  datatype LinkError =
    | Incomplete(needed: nat)
    | BadStart
    | BadLength(length: nat)
    | HeaderCrc
    | DataCrc(block: nat)

  datatype Control = Control(fromOutstation: bool, primary: bool, fcb: bool, fcv: bool, functionCode: nat)

  datatype LinkFrame = LinkFrame(control: Control, destination: nat, source: nat, userData: seq<octet>)

  // ---------------------------------------------------------------------------------------------------------
  // Control octet
  // ---------------------------------------------------------------------------------------------------------

  function FromOctet(b: octet): Control {
    Control(b / 0x80 % 2 == 1, b / 0x40 % 2 == 1, b / 0x20 % 2 == 1, b / 0x10 % 2 == 1, b % 0x10)
  }

  function ControlOctet(c: Control): octet
    requires c.functionCode < 0x10
  {
    (if c.fromOutstation then 0x80 else 0) + (if c.primary then 0x40 else 0)
    + (if c.fcb then 0x20 else 0) + (if c.fcv then 0x10 else 0) + c.functionCode
  }

  /** The five control fields are the octet, no more and no less. */
  lemma ControlInverse(b: octet, c: Control)
    ensures FromOctet(b) == c <==> c.functionCode < 0x10 && ControlOctet(c) == b
  {
    ControlRead(b);
    if c.functionCode < 0x10 {
      ControlWritten(c);
    }
  }

  lemma ControlRead(b: octet)
    ensures ControlOctet(FromOctet(b)) == b
  {
    assert b / 0x80 < 2 && b / 0x40 == b / 0x80 * 2 + b / 0x40 % 2;
    assert b / 0x20 == b / 0x40 * 2 + b / 0x20 % 2 && b / 0x10 == b / 0x20 * 2 + b / 0x10 % 2;
  }

  lemma ControlWritten(c: Control)
    requires c.functionCode < 0x10
    ensures FromOctet(ControlOctet(c)) == c
  {
    var b := ControlOctet(c);
    NibbleSplit(b, (if c.fromOutstation then 8 else 0) + (if c.primary then 4 else 0)
                   + (if c.fcb then 2 else 0) + (if c.fcv then 1 else 0), c.functionCode);
  }

  lemma NibbleSplit(b: nat, hi: nat, lo: nat)
    requires b == 0x10 * hi + lo && lo < 0x10
    ensures b % 0x10 == lo && b / 0x10 == hi && b / 0x20 == hi / 2 && b / 0x40 == hi / 4 && b / 0x80 == hi / 8
  {
  }

  // ---------------------------------------------------------------------------------------------------------
  // Decoding
  // ---------------------------------------------------------------------------------------------------------

  function Min(a: nat, b: nat): nat {
    if a <= b then a else b
  }

  /** Octets taken by `n` octets of user data with the checksum of every block. */
  function BodySize(n: nat): nat {
    n + (n + MAX_BLOCK - 1) / MAX_BLOCK * 2
  }

  lemma BodySizeStep(n: nat)
    requires n > 0
    ensures BodySize(n) == Min(n, MAX_BLOCK) + 2 + BodySize(n - Min(n, MAX_BLOCK))
  {
  }

  function Slice(bytes: seq<octet>, from: nat, size: nat): seq<octet>
    requires from + size <= |bytes|
  {
    bytes[from..from + size]
  }

  function Prepend(data: seq<octet>, r: Result<seq<octet>, nat>): Result<seq<octet>, nat> {
    match r
    case Ok(rest) => Ok(data + rest)
    case Err(block) => Err(block)
  }

  /** The user data of the blocks from `offset` on, or the number of the first block whose checksum is wrong. */
  function DecodeBlocks(bytes: seq<octet>, offset: nat, remaining: nat, block: nat): (r: Result<seq<octet>, nat>)
    requires offset + BodySize(remaining) <= |bytes|
    decreases remaining
  {
    if remaining == 0 then Ok([])
    else
      BodySizeStep(remaining);
      var size := Min(remaining, MAX_BLOCK);
      if !Crc.Checks(Slice(bytes, offset, size + 2)) then Err(block)
      else
        Prepend(Slice(bytes, offset, size),
                DecodeBlocks(bytes, offset + size + 2, remaining - size, block + 1))
  }

  function Decode(bytes: seq<octet>): (r: Result<Decoded<LinkFrame>, LinkError>) {
    if |bytes| < HEADER_LEN + 2 then Err(Incomplete(HEADER_LEN + 2))
    else if bytes[0] != 0x05 || bytes[1] != 0x64 then Err(BadStart)
    else if bytes[2] < MIN_LENGTH then Err(BadLength(bytes[2]))
    else
      var n: nat := bytes[2] - MIN_LENGTH;
      var total := HEADER_LEN + 2 + BodySize(n);
      if |bytes| < total then Err(Incomplete(total))
      else if !Crc.Checks(bytes[..HEADER_LEN + 2]) then Err(HeaderCrc)
      else
        match DecodeBlocks(bytes, HEADER_LEN + 2, n, 0)
        case Err(block) => Err(DataCrc(block))
        case Ok(data) =>
          Ok(Decoded(LinkFrame(FromOctet(bytes[3]), LittleEndian(bytes[4..6]), LittleEndian(bytes[6..8]), data), total))
  }

  lemma Prepended(a: seq<octet>, b: seq<octet>, r: Result<seq<octet>, nat>)
    ensures Prepend([], r) == r
    ensures Prepend(a, Ok([])) == Ok(a)
    ensures Prepend(a, Prepend(b, r)) == Prepend(a + b, r)
    ensures r.Err? ==> Prepend(a, r) == r
  {
    assert a + [] == a;
    match r
    case Ok(rest) => assert [] + rest == rest && a + (b + rest) == (a + b) + rest;
    case Err(_) =>
  }

  lemma ChecksNumber(block: seq<octet>, crc: Crc.u16)
    requires |block| >= 2 && Binary(crc, 16) == Crc.Crc16(block[..|block| - 2])
    ensures Crc.Checks(block) <==> crc == LittleEndian(block[|block| - 2..])
  {
    hide Number, Binary, Word, Crc.Crc16;
    var lo, hi := block[|block| - 2], block[|block| - 1];
    assert block[|block| - 2..] == [lo, hi];
    assert LittleEndian([lo, hi]) == lo + 0x100 * LittleEndian([hi]);
    WordNumber(lo, hi);
    Crc.WordSize();
    NumberOfBinary(crc, 16);
    BinaryOfNumber(Word(lo, hi));
  }

  lemma ChecksAt(bytes: seq<octet>, offset: nat, size: nat, crc: Crc.u16)
    requires offset + size + 2 <= |bytes| && Binary(crc, 16) == Crc.Crc16(bytes[offset..offset + size])
    ensures Crc.Checks(Slice(bytes, offset, size + 2))
       <==> crc == LittleEndian(bytes[offset + size..offset + size + 2])
  {
    hide Crc.Checks, LittleEndian, Binary, Crc.Crc16;
    var block := Slice(bytes, offset, size + 2);
    assert block[..size] == bytes[offset..offset + size];
    assert block[size..] == bytes[offset + size..offset + size + 2];
    ChecksNumber(block, crc);
  }

  // One block: a wrong checksum is the outcome, a right one leaves the blocks after it to be decoded.
  lemma BlockStep(bytes: seq<octet>, offset: nat, remaining: nat, block: nat, userData: seq<octet>, crc: Crc.u16)
    requires remaining > 0 && offset + BodySize(remaining) <= |bytes|
    requires offset + Min(remaining, MAX_BLOCK) + 2 + BodySize(remaining - Min(remaining, MAX_BLOCK)) <= |bytes|
    requires Binary(crc, 16) == Crc.Crc16(bytes[offset..offset + Min(remaining, MAX_BLOCK)])
    ensures var size := Min(remaining, MAX_BLOCK);
            Prepend(userData, DecodeBlocks(bytes, offset, remaining, block))
            == if crc == LittleEndian(bytes[offset + size..offset + size + 2])
               then Prepend(userData + bytes[offset..offset + size],
                            DecodeBlocks(bytes, offset + size + 2, remaining - size, block + 1))
               else Err(block)
  {
    hide Crc.Checks, LittleEndian, Binary, Crc.Crc16, Prepend, BodySize;
    var size := Min(remaining, MAX_BLOCK);
    ChecksAt(bytes, offset, size, crc);
    Prepended(userData, [], Err(block));
    Prepended(userData, bytes[offset..offset + size],
              DecodeBlocks(bytes, offset + size + 2, remaining - size, block + 1));
  }

  method ParseFrame(bytes: seq<octet>) returns (r: Result<Decoded<LinkFrame>, LinkError>)
    ensures r == Decode(bytes)
  {
    hide Crc.Checks, LittleEndian, Binary, Crc.Crc16, Prepend, FromOctet;
    if |bytes| < HEADER_LEN + 2 {
      return Err(Incomplete(HEADER_LEN + 2));
    }
    if bytes[0] != 0x05 || bytes[1] != 0x64 {
      return Err(BadStart);
    }
    var length: nat := bytes[2];
    if length < MIN_LENGTH {
      return Err(BadLength(bytes[2]));
    }
    var userDataLen: nat := length - MIN_LENGTH;
    var blocks := (userDataLen + MAX_BLOCK - 1) / MAX_BLOCK;
    var total := HEADER_LEN + 2 + userDataLen + blocks * 2;
    if |bytes| < total {
      return Err(Incomplete(total));
    }
    var headerCrc := LittleEndian(bytes[8..10]);
    var crc := Crc.Compute(bytes[..HEADER_LEN]);
    ChecksAt(bytes, 0, HEADER_LEN, crc);
    if crc != headerCrc {
      return Err(HeaderCrc);
    }
    var userData: seq<octet> := [];
    var offset := HEADER_LEN + 2;
    var remaining := userDataLen;
    var block := 0;
    ghost var whole := DecodeBlocks(bytes, HEADER_LEN + 2, userDataLen, 0);
    Prepended([], [], whole);
    while remaining > 0
      invariant offset + BodySize(remaining) == total
      invariant whole == Prepend(userData, DecodeBlocks(bytes, offset, remaining, block))
    {
      var blockLen := Min(remaining, MAX_BLOCK);
      BodySizeStep(remaining);
      var data := bytes[offset..offset + blockLen];
      var expected := LittleEndian(bytes[offset + blockLen..offset + blockLen + 2]);
      crc := Crc.Compute(data);
      BlockStep(bytes, offset, remaining, block, userData, crc);
      if crc != expected {
        return Err(DataCrc(block));
      }
      userData := userData + data;
      offset := offset + blockLen + 2;
      remaining := remaining - blockLen;
      block := block + 1;
    }
    Prepended(userData, [], whole);
    return Ok(Decoded(LinkFrame(FromOctet(bytes[3]), LittleEndian(bytes[4..6]), LittleEndian(bytes[6..8]), userData),
                     total));
  }

  // ---------------------------------------------------------------------------------------------------------
  // Encoding
  // ---------------------------------------------------------------------------------------------------------

  function WithCrc(data: seq<octet>): seq<octet> {
    data + WordOctets(Crc.Crc16(data))
  }

  lemma WithCrcChecks(data: seq<octet>)
    ensures |WithCrc(data)| == |data| + 2
    ensures Crc.Checks(WithCrc(data))
  {
    hide Crc.Crc16, WordOctets;
    assert WithCrc(data)[..|data|] == data;
  }

  /** A block that checks is its data followed by the checksum of its data. */
  lemma ChecksWithCrc(block: seq<octet>)
    requires Crc.Checks(block)
    ensures block == WithCrc(block[..|block| - 2])
  {
    hide Crc.Crc16;
    var data, lo, hi := block[..|block| - 2], block[|block| - 2], block[|block| - 1];
    var s := WordOctets(Crc.Crc16(data));
    WordInjective(lo, hi, s[0], s[1]);
    assert block == data + [lo, hi];
  }

  function EncodeBlocks(userData: seq<octet>): (s: seq<octet>)
    ensures |s| == BodySize(|userData|)
  {
    if userData == [] then []
    else
      BodySizeStep(|userData|);
      var size := Min(|userData|, MAX_BLOCK);
      WithCrcChecks(userData[..size]);
      WithCrc(userData[..size]) + EncodeBlocks(userData[size..])
  }

  /** The fields fit the octets they are written to. */
  predicate Encodable(frame: LinkFrame) {
    && frame.control.functionCode < 0x10
    && frame.destination < 0x1_0000
    && frame.source < 0x1_0000
    && |frame.userData| <= 250
  }

  function Header(frame: LinkFrame): (s: seq<octet>)
    requires Encodable(frame)
    ensures |s| == HEADER_LEN
  {
    [0x05, 0x64, MIN_LENGTH + |frame.userData|, ControlOctet(frame.control)]
    + LittleEndianOctets(frame.destination, 2) + LittleEndianOctets(frame.source, 2)
  }

  function EncodeFrame(frame: LinkFrame): (s: seq<octet>)
    requires Encodable(frame)
    ensures |s| == HEADER_LEN + 2 + BodySize(|frame.userData|)
  {
    WithCrcChecks(Header(frame));
    WithCrc(Header(frame)) + EncodeBlocks(frame.userData)
  }

  /** What the encoder raises: an octet or an address out of range. */
  datatype EncodeError = ValueError | OverflowError

  /** The encoding of the fields, or the error for one that is out of range. */
  function Encoding(control: int, destination: int, source: int, userData: seq<octet>): Result<seq<octet>, EncodeError> {
    if !(0 <= control < 0x100) || |userData| > 250 then Err(ValueError)
    else if !(0 <= destination < 0x1_0000 && 0 <= source < 0x1_0000) then Err(OverflowError)
    else Ok(EncodeFrame(LinkFrame(FromOctet(control), destination, source, userData)))
  }

  method Dnp3Frame(control: int, destination: int, source: int, userData: seq<octet>)
    returns (r: Result<seq<octet>, EncodeError>)
    ensures r == Encoding(control, destination, source, userData)
  {
    if 5 + |userData| > 0xFF || !(0 <= control < 0x100) {
      return Err(ValueError);
    }
    if !(0 <= destination < 0x1_0000) || !(0 <= source < 0x1_0000) {
      return Err(OverflowError);
    }
    var frame := FrameOctets(control, destination, source, userData);
    return Ok(frame);
  }

  /** The encoder's work once every field is known to fit. */
  method FrameOctets(control: octet, destination: Crc.u16, source: Crc.u16, userData: seq<octet>)
    returns (frame: seq<octet>)
    requires |userData| <= 250
    ensures Encoding(control, destination, source, userData) == Ok(frame)
  {
    hide BodySize, WithCrc, Crc.Crc16, LittleEndianOctets, EncodeBlocks, Binary, Encoding;
    var header: seq<octet> := [0x05, 0x64, 5 + |userData|, control]
                  + LittleEndianOctets(destination, 2) + LittleEndianOctets(source, 2);
    var crc := Crc.ComputeUnbounded(header);
    CrcOctets(header, crc);
    frame := header + LittleEndianOctets(crc, 2);
    ghost var start := frame;
    var index := 0;
    assert userData[0..] == userData;
    while index < |userData|
      invariant index <= |userData|
      invariant frame + EncodeBlocks(userData[index..]) == start + EncodeBlocks(userData)
    {
      var end := Min(index + 16, |userData|);
      var chunk := userData[index..end];
      crc := Crc.ComputeUnbounded(chunk);
      BlockWritten(frame, userData, index, crc);
      frame := frame + (chunk + LittleEndianOctets(crc, 2));
      index := end;
    }
    NothingLeft(frame);
    EncodingStarted(control, destination, source, userData, start);
  }

  lemma EncodingStarted(control: octet, destination: nat, source: nat, userData: seq<octet>, start: seq<octet>)
    requires destination < 0x1_0000 && source < 0x1_0000 && |userData| <= 250
    requires start == WithCrc([0x05, 0x64, 5 + |userData|, control]
                              + LittleEndianOctets(destination, 2) + LittleEndianOctets(source, 2))
    ensures Encoding(control, destination, source, userData) == Ok(start + EncodeBlocks(userData))
  {
    hide WithCrc, EncodeBlocks, LittleEndianOctets, FromOctet, ControlOctet;
    ControlRead(control);
  }

  lemma BlockAppended(frame: seq<octet>, userData: seq<octet>, index: nat, crc: seq<octet>)
    requires index < |userData|
    requires var chunk := userData[index..Min(index + 16, |userData|)]; chunk + crc == WithCrc(chunk)
    ensures var end := Min(index + 16, |userData|);
            frame + (userData[index..end] + crc) + EncodeBlocks(userData[end..]) == frame + EncodeBlocks(userData[index..])
  {
    hide WithCrc, BodySize;
    var end := Min(index + 16, |userData|);
    assert userData[index..][..end - index] == userData[index..end];
    assert userData[index..][end - index..] == userData[end..];
  }

  lemma BlockWritten(frame: seq<octet>, userData: seq<octet>, index: nat, crc: int)
    requires index < |userData| && 0 <= crc < 0x1_0000
    requires Binary(crc, 16) == Crc.Crc16(userData[index..Min(index + 16, |userData|)])
    ensures Pow256(2) == 0x1_0000
    ensures var end := Min(index + 16, |userData|);
            frame + (userData[index..end] + LittleEndianOctets(crc, 2)) + EncodeBlocks(userData[end..])
            == frame + EncodeBlocks(userData[index..])
  {
    hide Crc.Crc16, Binary, LittleEndianOctets, EncodeBlocks, WithCrc;
    CrcOctets(userData[index..Min(index + 16, |userData|)], crc);
    BlockAppended(frame, userData, index, LittleEndianOctets(crc, 2));
  }

  lemma NothingLeft(frame: seq<octet>)
    ensures frame + EncodeBlocks([]) == frame
  {
  }

  lemma CrcOctets(data: seq<octet>, crc: int)
    requires 0 <= crc < 0x1_0000 && Binary(crc, 16) == Crc.Crc16(data)
    ensures Pow256(2) == 0x1_0000
    ensures data + LittleEndianOctets(crc, 2) == WithCrc(data)
  {
    hide Crc.Crc16, Number, Binary, Word;
    var s, t := LittleEndianOctets(crc, 2), WordOctets(Crc.Crc16(data));
    LittleEndianReadsBack(crc, 2);
    assert crc == LittleEndian([s[0]] + [s[1]]) == s[0] as int + 0x100 * LittleEndian([s[1]]);
    WordNumber(s[0], s[1]);
    BinaryOfNumber(Word(s[0], s[1]));
    WordInjective(s[0], s[1], t[0], t[1]);
  }

  // ---------------------------------------------------------------------------------------------------------
  // Decoding is the inverse of encoding
  // ---------------------------------------------------------------------------------------------------------

  lemma PrependIff(data: seq<octet>, r: Result<seq<octet>, nat>, u: seq<octet>)
    ensures Prepend(data, r) == Ok(u)
       <==> |data| <= |u| && u[..|data|] == data && r == Ok(u[|data|..])
  {
    if r.Ok? {
      assert (data + r.value)[..|data|] == data && (data + r.value)[|data|..] == r.value;
    }
    if |data| <= |u| {
      assert u == u[..|data|] + u[|data|..];
    }
  }

  lemma SliceJoined(bytes: seq<octet>, offset: nat, m: nat, n: nat)
    requires offset + m + n <= |bytes|
    ensures Slice(bytes, offset, m + n) == Slice(bytes, offset, m) + Slice(bytes, offset + m, n)
  {
  }

  /** Blocks decode to `u`, and to nothing else, when they are the encoding of `u`. */
  lemma {:induction false} DecodeBlocksIff(bytes: seq<octet>, offset: nat, remaining: nat, block: nat, u: seq<octet>)
    requires offset + BodySize(remaining) <= |bytes|
    ensures DecodeBlocks(bytes, offset, remaining, block) == Ok(u)
       <==> |u| == remaining && Slice(bytes, offset, BodySize(remaining)) == EncodeBlocks(u)
    decreases remaining
  {
    hide BodySize, WithCrc, Crc.Checks;
    if remaining == 0 {
      NoBody();
    } else {
      BodySizeStep(remaining);
      var size := Min(remaining, MAX_BLOCK);
      var first := Slice(bytes, offset, size + 2);
      var tail := Slice(bytes, offset + size + 2, BodySize(remaining - size));
      SliceJoined(bytes, offset, size + 2, BodySize(remaining - size));
      SliceJoined(bytes, offset, size, 2);
      assert first[..size] == Slice(bytes, offset, size);
      PrependIff(first[..size], DecodeBlocks(bytes, offset + size + 2, remaining - size, block + 1), u);
      if |u| >= size {
        DecodeBlocksIff(bytes, offset + size + 2, remaining - size, block + 1, u[size..]);
        if |u| == remaining {
          SplitBlocks(first, tail, u, size);
        }
      }
    }
  }

  lemma NoBody()
    ensures BodySize(0) == 0
  {
  }

  // One block peeled off both sides of the equation.
  lemma SplitBlocks(first: seq<octet>, tail: seq<octet>, u: seq<octet>, size: nat)
    requires |u| > 0 && size == Min(|u|, MAX_BLOCK) && |first| == size + 2
    ensures first + tail == EncodeBlocks(u)
       <==> Crc.Checks(first) && first[..size] == u[..size] && tail == EncodeBlocks(u[size..])
  {
    hide BodySize, WithCrc, Crc.Checks;
    WithCrcChecks(u[..size]);
    if Crc.Checks(first) {
      ChecksWithCrc(first);
    }
    if first + tail == EncodeBlocks(u) {
      assert first == (first + tail)[..size + 2] == WithCrc(u[..size]);
      assert tail == (first + tail)[size + 2..] == EncodeBlocks(u[size..]);
      WithCrcPrefix(u[..size]);
    }
  }

  lemma WithCrcPrefix(data: seq<octet>)
    ensures WithCrc(data)[..|data|] == data
  {
  }

  lemma {:induction false} BodySizeBounds(n: nat)
    ensures n <= BodySize(n)
    ensures n <= 250 ==> BodySize(n) <= 282
  {
  }

  /** The header octets, read and written. */
  lemma HeaderIff(bytes: seq<octet>, frame: LinkFrame)
    requires |bytes| >= HEADER_LEN && Encodable(frame)
    ensures bytes[..HEADER_LEN] == Header(frame)
       <==> && bytes[0] == 0x05 && bytes[1] == 0x64 && bytes[2] == MIN_LENGTH + |frame.userData|
            && FromOctet(bytes[3]) == frame.control
            && LittleEndian(bytes[4..6]) == frame.destination && LittleEndian(bytes[6..8]) == frame.source
  {
    var h := Header(frame);
    hide LittleEndian, LittleEndianOctets, FromOctet;
    ControlInverse(bytes[3], frame.control);
    AddressIff(bytes[4..6], frame.destination);
    AddressIff(bytes[6..8], frame.source);
    assert h[4..6] == LittleEndianOctets(frame.destination, 2);
    assert h[6..8] == LittleEndianOctets(frame.source, 2);
    assert bytes[..HEADER_LEN] == [bytes[0], bytes[1], bytes[2], bytes[3]] + bytes[4..6] + bytes[6..8];
    if bytes[..HEADER_LEN] == h {
      assert bytes[4..6] == bytes[..HEADER_LEN][4..6] && bytes[6..8] == bytes[..HEADER_LEN][6..8];
      assert bytes[0] == h[0] && bytes[1] == h[1] && bytes[2] == h[2] && bytes[3] == h[3];
    }
  }

  lemma AddressIff(s: seq<octet>, n: nat)
    requires |s| == 2 && n < 0x1_0000
    ensures Pow256(2) == 0x1_0000
    ensures s == LittleEndianOctets(n, 2) <==> LittleEndian(s) == n
  {
    LittleEndianWritesBack(s);
    LittleEndianReadsBack(n, 2);
  }

  /**
   The decoder returns a frame and a length exactly on the buffers that begin with that frame's encoding, and the
   length is the encoding's.
   */
  lemma DecodeIffEncoded(bytes: seq<octet>, frame: LinkFrame, consumed: nat)
    ensures Decode(bytes) == Ok(Decoded(frame, consumed))
       <==> Encodable(frame) && consumed == |EncodeFrame(frame)| <= |bytes| && bytes[..consumed] == EncodeFrame(frame)
  {
    hide Crc.Checks, WithCrc, BodySize, FromOctet, LittleEndian, Header, EncodeBlocks;
    if Decode(bytes).Ok? && Decode(bytes).value == Decoded(frame, consumed) {
      DecodedIsEncoded(bytes, frame, consumed);
    }
    if Encodable(frame) && consumed == |EncodeFrame(frame)| <= |bytes| && bytes[..consumed] == EncodeFrame(frame) {
      EncodedDecodes(bytes, frame, consumed);
    }
  }

  lemma DecodedIsEncoded(bytes: seq<octet>, frame: LinkFrame, consumed: nat)
    requires Decode(bytes) == Ok(Decoded(frame, consumed))
    ensures Encodable(frame) && consumed == |EncodeFrame(frame)| <= |bytes| && bytes[..consumed] == EncodeFrame(frame)
  {
    hide Crc.Checks, WithCrc, BodySize, LittleEndian, Header, EncodeBlocks, DecodeBlocks;
    var n: nat := bytes[2] - MIN_LENGTH;
    DecodeBlocksIff(bytes, HEADER_LEN + 2, n, 0, frame.userData);
    AddressRange(bytes[4..6]);
    AddressRange(bytes[6..8]);
    HeaderIff(bytes, frame);
    ChecksWithCrc(bytes[..HEADER_LEN + 2]);
    assert bytes[..HEADER_LEN + 2][..HEADER_LEN] == bytes[..HEADER_LEN];
    assert bytes[..consumed] == bytes[..HEADER_LEN + 2] + Slice(bytes, HEADER_LEN + 2, BodySize(n));
  }

  lemma AddressRange(s: seq<octet>)
    requires |s| == 2
    ensures LittleEndian(s) < 0x1_0000
  {
    assert Pow256(2) == 0x1_0000;
  }

  lemma EncodedDecodes(bytes: seq<octet>, frame: LinkFrame, consumed: nat)
    requires Encodable(frame) && consumed == |EncodeFrame(frame)| <= |bytes|
    requires bytes[..consumed] == EncodeFrame(frame)
    ensures Decode(bytes) == Ok(Decoded(frame, consumed))
  {
    hide Crc.Checks, WithCrc, BodySize, FromOctet, LittleEndian, Header, EncodeBlocks, DecodeBlocks;
    var header := WithCrc(Header(frame));
    WithCrcChecks(Header(frame));
    WithCrcPrefix(Header(frame));
    assert bytes[..HEADER_LEN + 2] == bytes[..consumed][..HEADER_LEN + 2] == header;
    assert bytes[..HEADER_LEN] == header[..HEADER_LEN];
    HeaderIff(bytes, frame);
    assert Slice(bytes, HEADER_LEN + 2, BodySize(|frame.userData|)) == bytes[..consumed][HEADER_LEN + 2..];
    DecodeBlocksIff(bytes, HEADER_LEN + 2, |frame.userData|, 0, frame.userData);
  }

  /** What an accepted buffer consumes: never less than a header, never more than the longest frame. */
  lemma ConsumedBounds(bytes: seq<octet>)
    requires Decode(bytes).Ok?
    ensures 10 <= Decode(bytes).value.consumed <= 292
    ensures Decode(bytes).value.consumed <= |bytes|
    ensures Decode(bytes).value.consumed == 10 + BodySize(|Decode(bytes).value.frame.userData|)
  {
    var p := Decode(bytes).value;
    DecodeIffEncoded(bytes, p.frame, p.consumed);
    BodySizeBounds(|p.frame.userData|);
  }

  // ---------------------------------------------------------------------------------------------------------
  // Errors have one cause
  // ---------------------------------------------------------------------------------------------------------

  /** The buffer holds all the octets its start and length fields announce, for `n` octets of user data. */
  predicate Complete(bytes: seq<octet>, n: nat) {
    && |bytes| >= HEADER_LEN + 2 + BodySize(n)
    && bytes[0] == 0x05 && bytes[1] == 0x64 && bytes[2] == MIN_LENGTH + n
  }

  function BlockCount(n: nat): nat {
    (n + MAX_BLOCK - 1) / MAX_BLOCK
  }

  /** The octets of data block `k` and its checksum: every block starts 18 octets after the one before. */
  function Block(bytes: seq<octet>, n: nat, k: nat): (s: seq<octet>)
    requires k < BlockCount(n) && |bytes| >= HEADER_LEN + 2 + BodySize(n)
    ensures |s| >= 3
  {
    Slice(bytes, 10 + 18 * k, Min(n - 16 * k, 16) + 2)
  }

  ghost predicate FirstBad(bytes: seq<octet>, n: nat, from: nat, k: nat)
    requires |bytes| >= HEADER_LEN + 2 + BodySize(n)
  {
    && from <= k < BlockCount(n) && !Crc.Checks(Block(bytes, n, k))
    && forall j: nat {:trigger Block(bytes, n, j)} :: from <= j < k ==> Crc.Checks(Block(bytes, n, j))
  }

  lemma {:induction false} FirstBadBlock(bytes: seq<octet>, n: nat, b: nat, k: nat)
    requires |bytes| >= HEADER_LEN + 2 + BodySize(n) && b <= BlockCount(n)
    ensures var left := if 16 * b <= n then n - 16 * b else 0;
            var offset := 10 + BodySize(n) - BodySize(left);
            DecodeBlocks(bytes, offset, left, b) == Err(k) <==> FirstBad(bytes, n, b, k)
    decreases BlockCount(n) - b
  {
    hide Crc.Checks;
    if b < BlockCount(n) {
      assert BodySize(n) - BodySize(n - 16 * b) == 18 * b;
      BodySizeStep(n - 16 * b);
      assert Slice(bytes, 10 + 18 * b, Min(n - 16 * b, 16) + 2) == Block(bytes, n, b);
      FirstBadBlock(bytes, n, b + 1, k);
      FirstBadStep(bytes, n, b, k);
    }
  }

  lemma FirstBadStep(bytes: seq<octet>, n: nat, b: nat, k: nat)
    requires |bytes| >= HEADER_LEN + 2 + BodySize(n) && b < BlockCount(n)
    ensures FirstBad(bytes, n, b, k)
       <==> if Crc.Checks(Block(bytes, n, b)) then FirstBad(bytes, n, b + 1, k) else k == b
  {
    hide Crc.Checks, Block, BodySize;
    if FirstBad(bytes, n, b, k) && k > b {
      assert Crc.Checks(Block(bytes, n, b));
    }
  }

  /** Once the buffer is complete, the outcome is decided by the first checksum that fails, in stream order. */
  lemma DecodeCases(bytes: seq<octet>, n: nat)
    requires Complete(bytes, n)
    ensures Decode(bytes) == Err(HeaderCrc) <==> !Crc.Checks(bytes[..10])
    ensures forall k: nat :: Decode(bytes) == Err(DataCrc(k)) <==> Crc.Checks(bytes[..10]) && FirstBad(bytes, n, 0, k)
    ensures Decode(bytes).Err? ==> Decode(bytes).error.HeaderCrc? || Decode(bytes).error.DataCrc?
  {
    hide Crc.Checks, DecodeBlocks, FirstBad, BodySize;
    forall k: nat
      ensures DecodeBlocks(bytes, 10, n, 0) == Err(k) <==> FirstBad(bytes, n, 0, k)
    {
      FirstBadBlock(bytes, n, 0, k);
    }
  }

  /** The buffer opens with the two start octets. */
  lemma BadStartIff(bytes: seq<octet>)
    ensures Decode(bytes) == Err(BadStart) <==> |bytes| >= 10 && !(bytes[0] == 0x05 && bytes[1] == 0x64)
  {
    hide Crc.Checks, DecodeBlocks, BodySize, LittleEndian, FromOctet;
  }

  /** A length octet that does not even count the control octet and the addresses. */
  lemma BadLengthIff(bytes: seq<octet>, n: nat)
    ensures Decode(bytes) == Err(BadLength(n))
       <==> |bytes| >= 10 && bytes[0] == 0x05 && bytes[1] == 0x64 && n == bytes[2] < 5
  {
    hide Crc.Checks, DecodeBlocks, BodySize, LittleEndian, FromOctet;
  }

  /** The size a complete frame with this length octet has: two octets more for every block of 16 that is begun. */
  ghost predicate Announced(length: nat, size: nat) {
    length >= 5 && exists blocks: nat :: length - 5 <= 16 * blocks < length - 5 + 16 && size == 5 + length + 2 * blocks
  }

  lemma AnnouncedIff(length: nat, size: nat)
    ensures Announced(length, size) <==> length >= MIN_LENGTH && size == HEADER_LEN + 2 + BodySize(length - MIN_LENGTH)
  {
    if length >= 5 {
      var blocks: nat := (length - 5 + 15) / 16;
      assert length - 5 <= 16 * blocks < length - 5 + 16;
    }
  }

  /** Either the header is not complete or the frame it announces is not. */
  lemma IncompleteIff(bytes: seq<octet>, needed: nat)
    ensures Decode(bytes) == Err(Incomplete(needed))
       <==> || (|bytes| < 10 && needed == 10)
            || (&& |bytes| >= 10 && bytes[0] == 0x05 && bytes[1] == 0x64
                && |bytes| < needed && Announced(bytes[2], needed))
  {
    hide Crc.Checks, DecodeBlocks, BodySize, LittleEndian, FromOctet, Announced;
    if |bytes| >= 10 {
      AnnouncedIff(bytes[2], needed);
    }
  }

  // ---------------------------------------------------------------------------------------------------------
  // Where the fields of an accepted frame stand
  // ---------------------------------------------------------------------------------------------------------

  /** The control fields are the high bits of the octet and the number its four low bits make. */
  lemma ControlBits(b: octet)
    ensures var c, bits := FromOctet(b), OctetBits(b);
            && c.fromOutstation == bits[7] && c.primary == bits[6] && c.fcb == bits[5] && c.fcv == bits[4]
            && c.functionCode == Number(bits[..4])
  {
    hide Binary, Number;
    BitOf(b, 8, 4);
    BitOf(b, 8, 5);
    BitOf(b, 8, 6);
    BitOf(b, 8, 7);
    LowBits(b);
  }

  /** A 16-bit field, low octet first. */
  function LowFirst(lo: octet, hi: octet): nat {
    lo as nat + 0x100 * hi as nat
  }

  lemma AddressIs(s: seq<octet>)
    requires |s| == 2
    ensures LittleEndian(s) == LowFirst(s[0], s[1])
  {
    assert LittleEndian(s[1..]) == s[1];
  }

  lemma {:induction false} BlockData(bytes: seq<octet>, offset: nat, remaining: nat, block: nat, u: seq<octet>, i: nat)
    requires offset + BodySize(remaining) <= |bytes| && i < remaining
    requires DecodeBlocks(bytes, offset, remaining, block) == Ok(u)
    ensures i < |u| && offset + 18 * (i / 16) + i % 16 < |bytes| && u[i] == bytes[offset + 18 * (i / 16) + i % 16]
    decreases remaining
  {
    hide Crc.Checks, BodySize, Slice;
    BodySizeStep(remaining);
    var size := Min(remaining, MAX_BLOCK);
    SliceAt(bytes, offset, size);
    PrependIff(Slice(bytes, offset, size), DecodeBlocks(bytes, offset + size + 2, remaining - size, block + 1), u);
    if i >= size {
      BlockData(bytes, offset + 18, remaining - 16, block + 1, u[size..], i - 16);
      NextBlock(i);
    } else {
      assert u[i] == u[..size][i];
    }
  }

  lemma SliceAt(bytes: seq<octet>, from: nat, size: nat)
    requires from + size <= |bytes|
    ensures |Slice(bytes, from, size)| == size && forall i :: 0 <= i < size ==> Slice(bytes, from, size)[i] == bytes[from + i]
  {
  }

  lemma NextBlock(i: nat)
    requires i >= 16
    ensures (i - 16) / 16 == i / 16 - 1 && (i - 16) % 16 == i % 16
  {
  }

  /**
   Where the parts of a frame stand: control octet, addresses and header checksum at fixed places, low octets first, and
   16 octets of user data at a time, each followed by two that are no user data.
   */
  ghost predicate LaidOut(bytes: seq<octet>, frame: LinkFrame) {
    && |bytes| >= 10 && bytes[0] == 0x05 && bytes[1] == 0x64 && bytes[2] == 5 + |frame.userData|
    && frame.control == FromOctet(bytes[3])
    && frame.destination == LowFirst(bytes[4], bytes[5]) && frame.source == LowFirst(bytes[6], bytes[7])
    && Number(Crc.Crc16(bytes[..8])) == LowFirst(bytes[8], bytes[9])
    && forall i :: 0 <= i < |frame.userData| ==> UserDataAt(bytes, frame.userData, i)
  }

  predicate UserDataAt(bytes: seq<octet>, u: seq<octet>, i: nat)
    requires i < |u|
  {
    10 + 18 * (i / 16) + i % 16 < |bytes| && u[i] == bytes[10 + 18 * (i / 16) + i % 16]
  }

  lemma AcceptedLayout(bytes: seq<octet>, d: Decoded<LinkFrame>)
    ensures Decode(bytes) == Ok(d) ==> LaidOut(bytes, d.frame)
  {
    if Decode(bytes) == Ok(d) {
      AcceptedParts(bytes, d);
      var n: nat :| GoodParts(bytes, n, d);
      AcceptedAddresses(bytes, d);
      PartsLaidOut(bytes, n, d);
    }
  }

  lemma AcceptedAddresses(bytes: seq<octet>, d: Decoded<LinkFrame>)
    ensures Decode(bytes) == Ok(d) ==>
              && |bytes| >= 10 && d.frame.control == FromOctet(bytes[3])
              && d.frame.destination == LittleEndian(bytes[4..6]) && d.frame.source == LittleEndian(bytes[6..8])
  {
    hide Crc.Checks, DecodeBlocks, BodySize, LittleEndian, FromOctet;
  }

  lemma PartsLaidOut(bytes: seq<octet>, n: nat, d: Decoded<LinkFrame>)
    requires GoodParts(bytes, n, d) && d.frame.control == FromOctet(bytes[3])
    requires d.frame.destination == LittleEndian(bytes[4..6]) && d.frame.source == LittleEndian(bytes[6..8])
    ensures LaidOut(bytes, d.frame)
  {
    hide Crc.Checks, DecodeBlocks, BodySize, Number, LittleEndian, FromOctet, Crc.Crc16;
    AddressIs(bytes[4..6]);
    AddressIs(bytes[6..8]);
    HeaderChecksum(bytes[..10]);
    assert bytes[..10][..8] == bytes[..8];
    DecodeBlocksIff(bytes, 10, n, 0, d.frame.userData);
    forall i | 0 <= i < n
      ensures UserDataAt(bytes, d.frame.userData, i)
    {
      BlockData(bytes, 10, n, 0, d.frame.userData, i);
    }
  }

  lemma HeaderChecksum(header: seq<octet>)
    requires |header| == 10 && Crc.Checks(header)
    ensures Number(Crc.Crc16(header[..8])) == LowFirst(header[8], header[9])
  {
    hide Crc.Crc16, Number;
    WordNumber(header[8], header[9]);
  }

  /** What the encoder writes is laid out like this. */
  lemma EncodedLayout(frame: LinkFrame)
    requires Encodable(frame)
    ensures LaidOut(EncodeFrame(frame), frame)
  {
    hide Decode, EncodeFrame, LaidOut, Encodable;
    var bytes := EncodeFrame(frame);
    assert bytes[..|bytes|] == bytes;
    DecodeIffEncoded(bytes, frame, |bytes|);
    AcceptedLayout(bytes, Decoded(frame, |bytes|));
  }

  // ---------------------------------------------------------------------------------------------------------
  // Corrupted frames
  // ---------------------------------------------------------------------------------------------------------

  /** The two buffers hold `size` octets that differ, but only within 16 consecutive bits. */
  ghost predicate Corrupted(x: seq<octet>, y: seq<octet>, size: nat, i: int) {
    && size <= |x| && size <= |y|
    && x[..size] != y[..size] && Crc.WithinBurst(x[..size], y[..size], i)
  }

  lemma CorruptedPart(x: seq<octet>, y: seq<octet>, size: nat, i: int, from: nat, to: nat)
    requires Corrupted(x, y, size, i) && from <= to <= size
    requires Crc.Checks(x[from..to]) && x[from..to] != y[from..to]
    ensures !Crc.Checks(y[from..to])
  {
    hide Crc.Checks, Crc.WithinBurst;
    Crc.BurstSlice(x[..size], y[..size], i, from, to);
    assert x[..size][from..to] == x[from..to] && y[..size][from..to] == y[from..to];
    Crc.BurstDetected(x[from..to], y[from..to], i - 8 * from);
  }

  /** The buffer holds a good header and good blocks for `n` octets of user data. */
  predicate GoodParts(bytes: seq<octet>, n: nat, d: Decoded<LinkFrame>) {
    && Complete(bytes, n) && d.consumed == 10 + BodySize(n)
    && Crc.Checks(bytes[..10]) && DecodeBlocks(bytes, 10, n, 0) == Ok(d.frame.userData)
  }

  lemma AcceptedParts(bytes: seq<octet>, d: Decoded<LinkFrame>)
    ensures Decode(bytes) == Ok(d) ==> exists n: nat :: GoodParts(bytes, n, d)
  {
    hide Crc.Checks, DecodeBlocks, BodySize, LittleEndian, FromOctet;
    if Decode(bytes) == Ok(d) {
      assert GoodParts(bytes, bytes[2] - MIN_LENGTH, d);
    }
  }

  lemma BlocksAccepted(bytes: seq<octet>, n: nat, k: nat)
    requires |bytes| >= 10 + BodySize(n) && DecodeBlocks(bytes, 10, n, 0).Ok? && k < BlockCount(n)
    ensures Crc.Checks(Block(bytes, n, k))
  {
    hide Crc.Checks, DecodeBlocks, BodySize, FirstBad, Block;
    SomeBad(bytes, n, k);
    if f: nat :| FirstBad(bytes, n, 0, f) {
      FirstBadBlock(bytes, n, 0, f);
    }
  }

  /** An accepted buffer has a good header and good blocks. */
  lemma AcceptedChecks(bytes: seq<octet>)
    requires Decode(bytes).Ok?
    ensures var n := |Decode(bytes).value.frame.userData|;
            && Complete(bytes, n) && Decode(bytes).value.consumed == 10 + BodySize(n)
            && Crc.Checks(bytes[..10])
            && forall k: nat {:trigger Block(bytes, n, k)} :: k < BlockCount(n) ==> Crc.Checks(Block(bytes, n, k))
  {
    hide Crc.Checks, DecodeBlocks, BodySize, Decode, Block;
    var d := Decode(bytes).value;
    AcceptedParts(bytes, d);
    var n: nat :| GoodParts(bytes, n, d);
    DecodeBlocksIff(bytes, 10, n, 0, d.frame.userData);
    forall k: nat | k < BlockCount(n)
      ensures Crc.Checks(Block(bytes, n, k))
    {
      BlocksAccepted(bytes, n, k);
    }
  }

  /** If any block is bad, one is the first. */
  lemma {:induction false} SomeBad(bytes: seq<octet>, n: nat, k: nat)
    requires |bytes| >= HEADER_LEN + 2 + BodySize(n) && k < BlockCount(n)
    ensures !Crc.Checks(Block(bytes, n, k)) ==> exists f: nat :: f <= k && FirstBad(bytes, n, 0, f)
  {
    hide Crc.Checks, Block, BodySize;
    if !Crc.Checks(Block(bytes, n, k)) {
      if j: nat :| j < k && !Crc.Checks(Block(bytes, n, j)) {
        SomeBad(bytes, n, j);
      } else {
        assert FirstBad(bytes, n, 0, k);
      }
    }
  }

  /**
   No change confined to 16 consecutive bits of an accepted frame is accepted, wherever it falls: start octets,
   length, addresses, data, checksums, or across the border of two blocks. Octets after the frame may be anything.
   */
  lemma BurstRejected(x: seq<octet>, y: seq<octet>, i: int)
    requires Decode(x).Ok? && Corrupted(x, y, Decode(x).value.consumed, i)
    ensures Decode(y).Err?
  {
    hide Crc.Checks, Corrupted, BodySize, Decode;
    AcceptedChecks(x);
    var p := Decode(x).value;
    var n := |p.frame.userData|;
    if Decode(y).Ok? {
      AcceptedChecks(y);
      if x[..10] != y[..10] {
        CorruptedPart(x, y, p.consumed, i, 0, 10);
      } else {
        assert y[2] == y[..10][2] == x[..10][2] == x[2];
        SameBlocks(x, y, n, i);
        SameFrame(x, y, p.consumed);
      }
    }
  }

  lemma SameFrame(x: seq<octet>, y: seq<octet>, size: nat)
    requires 10 <= size <= |x| && size <= |y|
    requires x[..10] == y[..10] && forall j :: 10 <= j < size ==> x[j] == y[j]
    ensures forall i :: !Corrupted(x, y, size, i)
  {
    forall j | 0 <= j < 10
      ensures x[j] == y[j]
    {
      assert x[j] == x[..10][j] && y[j] == y[..10][j];
    }
    assert x[..size] == y[..size];
  }

  /** The block an octet of the body lies in. */
  lemma BlockOf(bytes: seq<octet>, n: nat, j: nat)
    requires |bytes| >= 10 + BodySize(n) && 10 <= j < 10 + BodySize(n)
    ensures var k := (j - 10) / 18;
            var from, to := 10 + 18 * k, 10 + 18 * k + Min(n - 16 * k, 16) + 2;
            k < BlockCount(n) && from <= j < to <= 10 + BodySize(n) && Block(bytes, n, k) == bytes[from..to]
  {
  }

  // Beyond an intact header, a burst that leaves every block's checksum right left every block alone.
  lemma SameBlocks(x: seq<octet>, y: seq<octet>, n: nat, i: int)
    requires |x| >= 10 + BodySize(n) && |y| >= 10 + BodySize(n) && Corrupted(x, y, 10 + BodySize(n), i)
    requires forall k: nat {:trigger Block(x, n, k)} :: k < BlockCount(n) ==> Crc.Checks(Block(x, n, k))
    requires forall k: nat {:trigger Block(y, n, k)} :: k < BlockCount(n) ==> Crc.Checks(Block(y, n, k))
    ensures forall j :: 10 <= j < 10 + BodySize(n) ==> x[j] == y[j]
  {
    hide Crc.Checks, Corrupted, Block, BodySize, BlockCount;
    forall j | 10 <= j < 10 + BodySize(n)
      ensures x[j] == y[j]
    {
      var k := (j - 10) / 18;
      BlockOf(x, n, j);
      BlockOf(y, n, j);
      var from, to := 10 + 18 * k, 10 + 18 * k + Min(n - 16 * k, 16) + 2;
      assert x[j] == x[from..to][j - from] && y[j] == y[from..to][j - from];
      if x[from..to] != y[from..to] {
        CorruptedPart(x, y, 10 + BodySize(n), i, from, to);
      }
    }
  }

  ghost predicate Unchanged(x: seq<octet>, y: seq<octet>, size: nat) {
    |x| >= size && |y| >= size && forall j :: 0 <= j < size ==> x[j] == y[j]
  }

  /** A change that a checksum is sure to find: within 16 consecutive bits, or of an odd number of bits. */
  ghost predicate Detectable(x: seq<octet>, y: seq<octet>) {
    x != y && (Crc.OddChange(x, y) || exists i: int :: Crc.WithinBurst(x, y, i))
  }

  lemma Detected(x: seq<octet>, y: seq<octet>)
    requires Crc.Checks(x) && Detectable(x, y)
    ensures !Crc.Checks(y)
  {
    hide Crc.Checks, Crc.OddChange, Crc.WithinBurst;
    if Crc.OddChange(x, y) {
      Crc.OddDetected(x, y);
    } else {
      var i: int :| Crc.WithinBurst(x, y, i);
      Crc.BurstDetected(x, y, i);
    }
  }

  /**
   When everything before data block `k` is intact and the block or its checksum suffers a burst or an odd number of
   changed bits, the error names that block, whatever happened to the blocks after it.
   */
  lemma DamagedBlockNamed(x: seq<octet>, y: seq<octet>, n: nat, k: nat)
    requires Decode(x).Ok? && n == |Decode(x).value.frame.userData| && k < BlockCount(n)
    requires 10 + BodySize(n) <= |x| && 10 + BodySize(n) <= |y|
    requires Unchanged(x, y, 10 + 18 * k)
    requires Detectable(Block(x, n, k), Block(y, n, k))
    ensures Decode(y) == Err(DataCrc(k))
  {
    hide Crc.Checks, Detectable, Decode;
    AcceptedChecks(x);
    assert y[..10] == x[..10];
    Detected(Block(x, n, k), Block(y, n, k));
    forall j: nat | j < k
      ensures Crc.Checks(Block(y, n, j))
    {
      assert Block(y, n, j) == Block(x, n, j);
      assert Crc.Checks(Block(x, n, j));
    }
    assert FirstBad(y, n, 0, k);
    DecodeCases(y, n);
  }

  /** The same for one octet or two adjacent octets of the frame, again with anything after the frame. */
  lemma AdjacentOctetsRejected(x: seq<octet>, y: seq<octet>, j: nat)
    requires Decode(x).Ok? && Decode(x).value.consumed <= |x| && Decode(x).value.consumed <= |y|
    requires forall k :: 0 <= k < Decode(x).value.consumed && k != j && k != j + 1 ==> x[k] == y[k]
    requires x[..Decode(x).value.consumed] != y[..Decode(x).value.consumed]
    ensures Decode(y).Err?
  {
    hide Crc.WithinBurst, Decode;
    var c := Decode(x).value.consumed;
    Crc.AdjacentOctetsBurst(x[..c], y[..c], j);
    BurstRejected(x, y, 8 * j);
  }

  // ---------------------------------------------------------------------------------------------------------
  // Odd numbers of changed bits
  // ---------------------------------------------------------------------------------------------------------

  lemma EvenWithCrc(data: seq<octet>)
    ensures !Crc.Odd(Bits(WithCrc(data)))
  {
    WithCrcChecks(data);
    hide Crc.Checks, Crc.Odd, Bits, WithCrc;
    Crc.ChecksEven(WithCrc(data));
  }

  lemma OddAppended(a: seq<octet>, b: seq<octet>)
    ensures Crc.Odd(Bits(a + b)) <==> Crc.Odd(Bits(a)) != Crc.Odd(Bits(b))
  {
    hide Bits, Crc.Odd;
    BitsConcat(a, b);
    Crc.OddConcat(Bits(a), Bits(b));
  }

  lemma {:induction false} EvenBlocks(userData: seq<octet>)
    ensures !Crc.Odd(Bits(EncodeBlocks(userData)))
  {
    hide Bits, Crc.Odd, WithCrc, BodySize;
    if userData == [] {
      NoOnes();
    } else {
      var size := Min(|userData|, MAX_BLOCK);
      EvenBlocks(userData[size..]);
      EvenWithCrc(userData[..size]);
      OddAppended(WithCrc(userData[..size]), EncodeBlocks(userData[size..]));
    }
  }

  lemma NoOnes()
    ensures !Crc.Odd(Bits([]))
  {
  }

  /** An encoded frame has an even number of ones. */
  lemma EvenFrame(frame: LinkFrame)
    requires Encodable(frame)
    ensures !Crc.Odd(Bits(EncodeFrame(frame)))
  {
    hide Bits, Crc.Odd, WithCrc, BodySize, EncodeBlocks, Header;
    EvenWithCrc(Header(frame));
    EvenBlocks(frame.userData);
    OddAppended(WithCrc(Header(frame)), EncodeBlocks(frame.userData));
  }

  lemma EvenAccepted(bytes: seq<octet>)
    requires Decode(bytes).Ok?
    ensures Decode(bytes).value.consumed <= |bytes|
    ensures !Crc.Odd(Bits(bytes[..Decode(bytes).value.consumed]))
  {
    hide Decode, EncodeFrame, Bits, Crc.Odd, Encodable;
    var d := Decode(bytes).value;
    DecodeIffEncoded(bytes, d.frame, d.consumed);
    EvenFrame(d.frame);
  }

  lemma LengthField(bytes: seq<octet>)
    requires Decode(bytes).Ok?
    ensures |bytes| >= 10 && bytes[2] == MIN_LENGTH + |Decode(bytes).value.frame.userData|
    ensures Decode(bytes).value.consumed == 10 + BodySize(bytes[2] - MIN_LENGTH)
  {
    hide Decode, BodySize;
    AcceptedChecks(bytes);
  }

  /** No change of an odd number of bits that leaves the length octet alone is accepted, wherever the bits are. */
  lemma OddRejected(x: seq<octet>, y: seq<octet>)
    requires Decode(x).Ok? && Decode(x).value.consumed <= |x| && Decode(x).value.consumed <= |y|
    requires Crc.OddChange(x[..Decode(x).value.consumed], y[..Decode(x).value.consumed])
    requires 2 < |x| && 2 < |y| && x[2] == y[2]
    ensures Decode(y).Err?
  {
    hide Decode, Bits, Crc.Odd, Crc.OddChange, BodySize;
    var c := Decode(x).value.consumed;
    LengthField(x);
    EvenAccepted(x);
    Crc.OddChangeIff(x[..c], y[..c]);
    if Decode(y).Ok? {
      LengthField(y);
      EvenAccepted(y);
    }
  }

  /** Every change of an odd number of bits of the frame is rejected. */
  ghost predicate RejectsOdd(x: seq<octet>, size: nat)
    requires size <= |x|
  {
    forall y :: size <= |y| && Crc.OddChange(x[..size], y[..size]) ==> Decode(y).Err?
  }

  /** An octet with one bit set, and then octets with none. */
  function OneBit(size: nat): (s: seq<octet>)
    requires size > 0
    ensures |s| == size
  {
    [1] + seq(size - 1, _ => 0)
  }

  lemma {:induction false} NoBitSet(s: seq<octet>)
    requires forall i :: 0 <= i < |s| ==> s[i] == 0
    ensures !Crc.Odd(Bits(s))
  {
    hide OctetBits, Crc.Odd;
    if s == [] {
      NoOnes();
    } else {
      NoBitSet(s[1..]);
      OctetZero();
      Crc.OddConcat(OctetBits(s[0]), Bits(s[1..]));
    }
  }

  lemma OctetZero()
    ensures !Crc.Odd(OctetBits(0))
  {
    hide Binary, Crc.Odd;
    BinaryOfZero(8);
    Crc.OddZeros(8);
  }

  lemma OctetOne()
    ensures Crc.Odd(Bits([1]))
  {
    hide Binary, Crc.Odd;
    Crc.OddHalf(1, 8);
    BinaryOfZero(7);
    Crc.OddZeros(7);
    var b: octet := 1;
    assert [b][1..] == [] && Bits([b]) == OctetBits(b) + [];
    assert OctetBits(b) + [] == OctetBits(b);
  }

  lemma OneBitOdd(size: nat)
    requires size > 0
    ensures Crc.Odd(Bits(OneBit(size)))
  {
    hide Bits, Crc.Odd;
    var rest: seq<octet> := seq(size - 1, _ => 0);
    OctetOne();
    NoBitSet(rest);
    OddAppended([1], rest);
  }

  // A shorter frame in front of one more bit: accepted, though an odd number of bits has changed.
  lemma OddAccepted(x: seq<octet>) returns (y: seq<octet>)
    requires Decode(x).Ok? && |Decode(x).value.frame.userData| > 0 && Decode(x).value.consumed <= |x|
    ensures var c := Decode(x).value.consumed;
            |y| == c && Crc.OddChange(x[..c], y[..c]) && Decode(y).Ok?
  {
    hide Decode, EncodeFrame, Bits, Crc.Odd, Crc.OddChange, OneBit;
    var d := Decode(x).value;
    var c := d.consumed;
    LengthField(x);
    LongerThanHeader(|d.frame.userData|);
    DecodeIffEncoded(x, d.frame, c);
    var short := d.frame.(userData := []);
    NoBody();
    y := EncodeFrame(short) + OneBit(c - 10);
    assert y[..10] == EncodeFrame(short) && y[..c] == y;
    DecodeIffEncoded(y, short, 10);
    EvenAccepted(x);
    EvenFrame(short);
    OneBitOdd(c - 10);
    OddAppended(EncodeFrame(short), OneBit(c - 10));
    Crc.OddChangeIff(x[..c], y[..c]);
  }

  lemma LongerThanHeader(n: nat)
    ensures n > 0 ==> BodySize(n) > 0
    ensures BodySize(0) == 0
  {
  }

  /**
   Every change of an odd number of bits of an accepted frame is rejected exactly when the frame carries no user data:
   otherwise the header may become that of a shorter frame, and what is left over is not looked at.
   */
  lemma OddRejectedIff(x: seq<octet>)
    requires Decode(x).Ok? && Decode(x).value.consumed <= |x|
    ensures RejectsOdd(x, Decode(x).value.consumed) <==> Decode(x).value.frame.userData == []
  {
    hide Decode, Crc.OddChange, BodySize;
    var d := Decode(x).value;
    if d.frame.userData == [] {
      LengthField(x);
      LongerThanHeader(0);
      forall y | d.consumed <= |y| && Crc.OddChange(x[..d.consumed], y[..d.consumed])
        ensures Decode(y).Err?
      {
        OddHeader(x, y);
      }
    } else {
      var y := OddAccepted(x);
    }
  }

  lemma OddHeader(x: seq<octet>, y: seq<octet>)
    requires Decode(x).Ok? && |x| >= 10 && |y| >= 10 && Crc.OddChange(x[..10], y[..10])
    ensures Decode(y).Err?
  {
    hide Decode, Crc.OddChange, Crc.Checks, BodySize;
    AcceptedChecks(x);
    Crc.OddDetected(x[..10], y[..10]);
    if Decode(y).Ok? {
      AcceptedChecks(y);
    }
  }

  // ---------------------------------------------------------------------------------------------------------
  // Prefixes and extensions
  // ---------------------------------------------------------------------------------------------------------

  lemma SliceExtended(bytes: seq<octet>, more: seq<octet>, from: nat, size: nat)
    requires from + size <= |bytes|
    ensures Slice(bytes + more, from, size) == Slice(bytes, from, size)
  {
  }

  lemma {:induction false} DecodeBlocksExtended(bytes: seq<octet>, more: seq<octet>, offset: nat, remaining: nat, block: nat)
    requires offset + BodySize(remaining) <= |bytes|
    ensures DecodeBlocks(bytes + more, offset, remaining, block) == DecodeBlocks(bytes, offset, remaining, block)
    decreases remaining
  {
    hide Crc.Checks, BodySize, Slice, Prepend;
    if remaining > 0 {
      BodySizeStep(remaining);
      var size := Min(remaining, MAX_BLOCK);
      SliceExtended(bytes, more, offset, size + 2);
      SliceExtended(bytes, more, offset, size);
      DecodeBlocksExtended(bytes, more, offset + size + 2, remaining - size, block + 1);
    }
  }

  /** Only a verdict of `Incomplete` can change when octets are appended. */
  lemma DecodeExtended(bytes: seq<octet>, more: seq<octet>)
    ensures Decode(bytes).Ok? || !Decode(bytes).error.Incomplete? ==> Decode(bytes + more) == Decode(bytes)
  {
    hide Crc.Checks, BodySize, DecodeBlocks;
    if |bytes| >= 10 && bytes[2] >= MIN_LENGTH && |bytes| >= 10 + BodySize(bytes[2] - MIN_LENGTH) {
      DecodeBlocksExtended(bytes, more, 10, bytes[2] - MIN_LENGTH, 0);
      assert (bytes + more)[..10] == bytes[..10];
      assert (bytes + more)[4..6] == bytes[4..6] && (bytes + more)[6..8] == bytes[6..8];
    }
  }

  /** Every proper prefix of an accepted frame asks for more octets, and never for more than the frame has. */
  lemma PrefixIncomplete(bytes: seq<octet>, size: nat)
    requires Decode(bytes).Ok? && size < Decode(bytes).value.consumed <= |bytes|
    ensures Decode(bytes[..size]).Err? && Decode(bytes[..size]).error.Incomplete?
    ensures size < Decode(bytes[..size]).error.needed <= Decode(bytes).value.consumed
  {
    hide Crc.Checks, BodySize, DecodeBlocks;
  }
}
