/**
 OPC UA messages (tools/opcua-dpi/src: message.rs, conversation.rs, service.rs, lib.rs). The message header and its
 chunk types are section 6.7.2 of OPC 10000-6; the security policy URI is kept as raw octets.
 */
module OpcUa {

  import opened Octets
  import opened Results
  import opened Framing

  // ---------------------------------------------------------------------------------------------------------
  // Message header
  // ---------------------------------------------------------------------------------------------------------

  const HEL: seq<octet> := [0x48, 0x45, 0x4C]
  const ACK: seq<octet> := [0x41, 0x43, 0x4B]
  const ERR: seq<octet> := [0x45, 0x52, 0x52]
  const RHE: seq<octet> := [0x52, 0x48, 0x45]
  const OPN: seq<octet> := [0x4F, 0x50, 0x4E]
  const MSG: seq<octet> := [0x4D, 0x53, 0x47]
  const CLO: seq<octet> := [0x43, 0x4C, 0x4F]

  predicate IsMessageType(t: seq<octet>) {
    t == HEL || t == ACK || t == ERR || t == RHE || t == OPN || t == MSG || t == CLO
  }

  predicate IsChunkType(c: octet) {
    c == 0x46 || c == 0x43 || c == 0x41
  }

  datatype MessageError = Incomplete(needed: nat) | BadType | BadChunk(chunk: octet) | BadSize(size: nat)

  datatype MessageHeader = MessageHeader(messageType: seq<octet>, chunkType: octet, size: nat)

  datatype Message = Message(header: MessageHeader, body: seq<octet>)

  function ParseMessage(bytes: seq<octet>): Result<Message, MessageError> {
    if |bytes| < 8 then Err(Incomplete(8))
    else if !IsMessageType(bytes[..3]) then Err(BadType)
    else if !IsChunkType(bytes[3]) then Err(BadChunk(bytes[3]))
    else
      var size := LittleEndian(bytes[4..8]);
      if size < 8 then Err(BadSize(size))
      else if |bytes| < size then Err(Incomplete(size))
      else Ok(Message(MessageHeader(bytes[..3], bytes[3], size), bytes[8..size]))
  }

  // ---------------------------------------------------------------------------------------------------------
  // Secure conversation header
  // ---------------------------------------------------------------------------------------------------------

  datatype ConversationHeader = ConversationHeader(
    secureChannelId: nat,
    securityPolicyUri: Option<seq<octet>>,
    tokenId: Option<nat>,
    sequenceNumber: nat,
    requestId: nat,
    body: seq<octet>)

  /** A value read at an offset, and the offset after it. */
  datatype Field<T> = Field(value: T, end: nat)

  function ReadU32(bytes: seq<octet>, offset: nat): (r: Option<Field<nat>>)
    ensures r.Some? ==> r.value.end == offset + 4 <= |bytes|
  {
    if offset + 4 > |bytes| then None else Some(Field(LittleEndian(bytes[offset..offset + 4]), offset + 4))
  }

  /** A length-prefixed octet string; a length that is negative as a 32-bit integer stands for a null string. */
  function ReadString(bytes: seq<octet>, offset: nat): (r: Option<Field<seq<octet>>>)
    ensures r.Some? ==> offset + 4 <= r.value.end <= |bytes|
  {
    match ReadU32(bytes, offset)
    case None => None
    case Some(n) =>
      if n.value >= 0x8000_0000 then Some(Field([], n.end))
      else if n.end + n.value > |bytes| then None
      else Some(Field(bytes[n.end..n.end + n.value], n.end + n.value))
  }

  /** The offset cursor over a message body. */
  class Reader {
    const bytes: seq<octet>
    var offset: nat

    constructor (bytes: seq<octet>)
      ensures this.bytes == bytes && offset == 0
    {
      this.bytes := bytes;
      offset := 0;
    }

    method U32() returns (r: Option<nat>)
      modifies this
      ensures match ReadU32(bytes, old(offset))
              case None => r == None && offset == old(offset)
              case Some(f) => r == Some(f.value) && offset == f.end
    {
      var end := offset + 4;
      if end > |bytes| {
        return None;
      }
      r := Some(LittleEndian(bytes[offset..end]));
      offset := end;
    }

    method String() returns (r: Option<seq<octet>>)
      modifies this
      ensures match ReadString(bytes, old(offset))
              case None => r == None && offset == (if ReadU32(bytes, old(offset)).Some? then old(offset) + 4 else old(offset))
              case Some(f) => r == Some(f.value) && offset == f.end
    {
      var length := U32();
      if length.None? {
        return None;
      }
      if length.value >= 0x8000_0000 {
        return Some([]);
      }
      var end := offset + length.value;
      if end > |bytes| {
        return None;
      }
      r := Some(bytes[offset..end]);
      offset := end;
    }

    /** As `String`, but the octets are only skipped. */
    method ByteString() returns (ok: bool)
      modifies this
      ensures match ReadString(bytes, old(offset))
              case None => !ok && offset == (if ReadU32(bytes, old(offset)).Some? then old(offset) + 4 else old(offset))
              case Some(f) => ok && offset == f.end
    {
      var length := U32();
      if length.None? {
        return false;
      }
      if length.value >= 0x8000_0000 {
        return true;
      }
      var end := offset + length.value;
      if end > |bytes| {
        return false;
      }
      offset := end;
      return true;
    }

    method Rest() returns (r: seq<octet>)
      ensures r == if offset <= |bytes| then bytes[offset..] else []
    {
      r := if offset <= |bytes| then bytes[offset..] else [];
    }
  }

  /** Sequence number, request id and body, from `offset` on. */
  function ConversationTail(payload: seq<octet>, offset: nat, channel: nat, uri: Option<seq<octet>>, token: Option<nat>)
    : Option<ConversationHeader>
  {
    match ReadU32(payload, offset)
    case None => None
    case Some(sequence) =>
      match ReadU32(payload, sequence.end)
      case None => None
      case Some(request) =>
        Some(ConversationHeader(channel, uri, token, sequence.value, request.value, payload[request.end..]))
  }

  function Conversation(messageType: seq<octet>, payload: seq<octet>): Option<ConversationHeader> {
    match ReadU32(payload, 0)
    case None => None
    case Some(channel) =>
      if messageType == OPN then
        match ReadString(payload, channel.end)
        case None => None
        case Some(uri) =>
          match ReadString(payload, uri.end)
          case None => None
          case Some(certificate) =>
            match ReadString(payload, certificate.end)
            case None => None
            case Some(thumbprint) => ConversationTail(payload, thumbprint.end, channel.value, Some(uri.value), None)
      else if messageType == MSG || messageType == CLO then
        match ReadU32(payload, channel.end)
        case None => None
        case Some(token) => ConversationTail(payload, token.end, channel.value, None, Some(token.value))
      else ConversationTail(payload, channel.end, channel.value, None, None)
  }

  method ParseConversation(messageType: seq<octet>, payload: seq<octet>) returns (r: Option<ConversationHeader>)
    ensures r == Conversation(messageType, payload)
  {
    var reader := new Reader(payload);
    var channel := reader.U32();
    if channel.None? {
      return None;
    }
    var uri, token := None, None;
    if messageType == OPN {
      uri := reader.String();
      if uri.None? {
        return None;
      }
      var certificate := reader.ByteString();
      if !certificate {
        return None;
      }
      var thumbprint := reader.ByteString();
      if !thumbprint {
        return None;
      }
    } else if messageType == MSG || messageType == CLO {
      token := reader.U32();
      if token.None? {
        return None;
      }
    }
    var sequence := reader.U32();
    if sequence.None? {
      return None;
    }
    var request := reader.U32();
    if request.None? {
      return None;
    }
    var body := reader.Rest();
    return Some(ConversationHeader(channel.value, uri, token, sequence.value, request.value, body));
  }

  // ---------------------------------------------------------------------------------------------------------
  // Frames
  // ---------------------------------------------------------------------------------------------------------

  datatype ServiceNodeId = ServiceNodeId(namespace: nat, identifier: nat)

  function ParseNodeId(bytes: seq<octet>): Option<ServiceNodeId> {
    if bytes == [] then None
    else if bytes[0] == 0x00 && |bytes| >= 2 then Some(ServiceNodeId(0, bytes[1]))
    else if bytes[0] == 0x01 && |bytes| >= 4 then Some(ServiceNodeId(bytes[1], LittleEndian(bytes[2..4])))
    else if bytes[0] == 0x02 && |bytes| >= 7 then Some(ServiceNodeId(LittleEndian(bytes[1..3]), LittleEndian(bytes[3..7])))
    else None
  }

  datatype OpcUaFrame = OpcUaFrame(
    header: MessageHeader,
    conversation: Option<ConversationHeader>,
    service: Option<ServiceNodeId>)

  function Decode(bytes: seq<octet>): Result<Decoded<OpcUaFrame>, MessageError> {
    match ParseMessage(bytes)
    case Err(e) => Err(e)
    case Ok(m) =>
      var t := m.header.messageType;
      var conversation := if t == OPN || t == MSG || t == CLO then Conversation(t, m.body) else None;
      var service := if conversation.Some? then ParseNodeId(conversation.value.body) else None;
      Ok(Decoded(OpcUaFrame(m.header, conversation, service), m.header.size))
  }

  const LEAST: nat := 8

  function Needed(e: MessageError): Option<nat> {
    if e.Incomplete? then Some(e.needed) else None
  }

  lemma Consuming()
    ensures Consumes(Decode, LEAST)
  {
  }

  lemma DecodeExtended(b: seq<octet>, more: seq<octet>)
    requires Decode(b).Ok? || Needed(Decode(b).error).None?
    ensures Decode(b + more) == Decode(b)
  {
    hide IsMessageType, Conversation, LittleEndian, ParseNodeId;
    var size := LittleEndian(b[4..8]);
    assert (b + more)[..3] == b[..3] && (b + more)[4..8] == b[4..8];
    if 8 <= size <= |b| {
      assert (b + more)[8..size] == b[8..size];
    }
  }

  lemma PrefixIncomplete(b: seq<octet>, size: nat)
    requires Decode(b).Ok? && size < Decode(b).value.consumed <= |b|
    ensures AsksForMore(Decode(b[..size]), Needed, size, Decode(b).value.consumed)
  {
    hide IsMessageType, Conversation, LittleEndian, ParseNodeId;
    if size >= 8 {
      assert b[..size][..3] == b[..3] && b[..size][4..8] == b[4..8];
    }
  }

  /** The frame decoder meets all three conditions of the stream theorems, with frames of at least eight octets. */
  lemma FrameDelimiting()
    ensures SelfDelimiting(Decode, Needed, LEAST)
  {
    hide Decode;
    Consuming();
    forall b, more | Decode(b).Ok? || Needed(Decode(b).error).None?
      ensures Decode(b + more) == Decode(b)
    {
      DecodeExtended(b, more);
    }
    forall b, size: int | Decode(b).Ok? && 0 <= size < Decode(b).value.consumed <= |b|
      ensures AsksForMore(Decode(b[..size]), Needed, size, Decode(b).value.consumed)
    {
      PrefixIncomplete(b, size);
    }
  }

  method ParseStream(bytes: seq<octet>) returns (frames: seq<Result<OpcUaFrame, MessageError>>)
    ensures Consumes(Decode, LEAST) && frames == Stream(Decode, LEAST, bytes)
  {
    Consuming();
    hide Decode;
    frames := [];
    var offset := 0;
    assert bytes[0..] == bytes;
    while offset < |bytes|
      invariant offset <= |bytes|
      invariant frames + Stream(Decode, LEAST, bytes[offset..]) == Stream(Decode, LEAST, bytes)
    {
      match Decode(bytes[offset..])
      case Ok(d) =>
        assert bytes[offset..][d.consumed..] == bytes[offset + d.consumed..];
        frames := frames + [Ok(d.frame)];
        offset := offset + d.consumed;
      case Err(e) =>
        frames := frames + [Err(e)];
        return;
    }
    assert frames + [] == frames;
  }

  // ---------------------------------------------------------------------------------------------------------
  // Conversation headers and the octets they stand for
  // ---------------------------------------------------------------------------------------------------------

  lemma FourOctets()
    ensures Pow256(4) == 0x1_0000_0000
  {
    assert Pow256(2) == 0x1_0000;
  }

  function U32Octets(n: nat): (s: seq<octet>)
    requires n < 0x1_0000_0000
    ensures |s| == 4
  {
    FourOctets();
    LittleEndianOctets(n, 4)
  }

  /**
   `s` stands for the octet string `v`: its length and its octets, or for an empty `v` any length that is negative as
   a 32-bit integer.
   */
  predicate IsString(s: seq<octet>, v: seq<octet>) {
    && |s| >= 4
    && var n := LittleEndian(s[..4]);
       if n >= 0x8000_0000 then |s| == 4 && v == [] else |s| == 4 + n && v == s[4..]
  }

  lemma ReadsU32(before: seq<octet>, n: nat, after: seq<octet>)
    requires n < 0x1_0000_0000
    ensures ReadU32(before + U32Octets(n) + after, |before|) == Some(Field(n, |before| + 4))
  {
    FourOctets();
    var bytes := before + U32Octets(n) + after;
    assert bytes[|before|..|before| + 4] == U32Octets(n);
    LittleEndianReadsBack(n, 4);
  }

  lemma U32Read(bytes: seq<octet>, offset: nat)
    requires ReadU32(bytes, offset).Some?
    ensures ReadU32(bytes, offset).value.value < 0x1_0000_0000
    ensures bytes[offset..offset + 4] == U32Octets(ReadU32(bytes, offset).value.value)
  {
    FourOctets();
    LittleEndianWritesBack(bytes[offset..offset + 4]);
  }

  lemma ReadsString(before: seq<octet>, s: seq<octet>, v: seq<octet>, after: seq<octet>)
    requires IsString(s, v)
    ensures ReadString(before + s + after, |before|) == Some(Field(v, |before| + |s|))
  {
    hide LittleEndian;
    var bytes := before + s + after;
    assert bytes[|before|..|before| + 4] == s[..4];
    assert bytes[|before| + 4..|before| + |s|] == s[4..];
  }

  lemma StringRead(bytes: seq<octet>, offset: nat)
    requires ReadString(bytes, offset).Some?
    ensures IsString(bytes[offset..ReadString(bytes, offset).value.end], ReadString(bytes, offset).value.value)
  {
    hide LittleEndian;
    var end := ReadString(bytes, offset).value.end;
    assert bytes[offset..end][..4] == bytes[offset..offset + 4];
    assert bytes[offset..end][4..] == bytes[offset + 4..end];
  }

  /** The sequence header and the body. */
  function TailOctets(h: ConversationHeader): seq<octet>
    requires Representable(h)
  {
    U32Octets(h.sequenceNumber) + U32Octets(h.requestId) + h.body
  }

  predicate Representable(h: ConversationHeader) {
    && h.secureChannelId < 0x1_0000_0000 && h.sequenceNumber < 0x1_0000_0000 && h.requestId < 0x1_0000_0000
    && (h.tokenId.Some? ==> h.tokenId.value < 0x1_0000_0000)
  }

  lemma TailIff(before: seq<octet>, tail: seq<octet>, h: ConversationHeader)
    ensures ConversationTail(before + tail, |before|, h.secureChannelId, h.securityPolicyUri, h.tokenId) == Some(h)
       <==> && h.sequenceNumber < 0x1_0000_0000 && h.requestId < 0x1_0000_0000
            && tail == U32Octets(h.sequenceNumber) + U32Octets(h.requestId) + h.body
  {
    hide U32Octets, ReadU32;
    var bytes, n := before + tail, |before|;
    if ConversationTail(bytes, n, h.secureChannelId, h.securityPolicyUri, h.tokenId) == Some(h) {
      U32Read(bytes, n);
      U32Read(bytes, n + 4);
      assert tail == bytes[n..n + 4] + bytes[n + 4..n + 8] + bytes[n + 8..];
    }
    if h.sequenceNumber < 0x1_0000_0000 && h.requestId < 0x1_0000_0000 {
      TailReads(before, tail, h);
    }
  }

  lemma TailReads(before: seq<octet>, tail: seq<octet>, h: ConversationHeader)
    requires h.sequenceNumber < 0x1_0000_0000 && h.requestId < 0x1_0000_0000
    ensures tail == U32Octets(h.sequenceNumber) + U32Octets(h.requestId) + h.body ==>
              ConversationTail(before + tail, |before|, h.secureChannelId, h.securityPolicyUri, h.tokenId) == Some(h)
  {
    hide U32Octets, ReadU32;
    var s, r := U32Octets(h.sequenceNumber), U32Octets(h.requestId);
    var bytes := before + (s + r + h.body);
    assert bytes == before + s + (r + h.body) && bytes == (before + s) + r + h.body;
    ReadsU32(before, h.sequenceNumber, r + h.body);
    ReadsU32(before + s, h.requestId, h.body);
    assert bytes[|before| + 8..] == h.body;
  }

  /** The octets of an MSG or CLO payload: channel, token, sequence header, body. */
  predicate IsSymmetric(payload: seq<octet>, h: ConversationHeader) {
    && Representable(h) && h.securityPolicyUri == None && h.tokenId.Some?
    && payload == U32Octets(h.secureChannelId) + U32Octets(h.tokenId.value) + TailOctets(h)
  }

  /** The payload of an MSG or CLO message decodes to a header exactly when it is that header's octets. */
  lemma SymmetricIff(messageType: seq<octet>, payload: seq<octet>, h: ConversationHeader)
    requires messageType == MSG || messageType == CLO
    ensures Conversation(messageType, payload) == Some(h) <==> IsSymmetric(payload, h)
  {
    hide U32Octets, ReadU32, ConversationTail;
    assert messageType[0] != OPN[0];
    if Conversation(messageType, payload) == Some(h) {
      SymmetricDecoded(messageType, payload, h);
    }
    if IsSymmetric(payload, h) {
      SymmetricEncoded(messageType, payload, h);
    }
  }

  lemma TailFields(payload: seq<octet>, offset: nat, channel: nat, uri: Option<seq<octet>>, token: Option<nat>,
                   h: ConversationHeader)
    requires ConversationTail(payload, offset, channel, uri, token) == Some(h)
    ensures h.secureChannelId == channel && h.securityPolicyUri == uri && h.tokenId == token
  {
  }

  lemma SymmetricDecoded(messageType: seq<octet>, payload: seq<octet>, h: ConversationHeader)
    requires (messageType == MSG || messageType == CLO) && messageType != OPN
    requires Conversation(messageType, payload) == Some(h)
    ensures IsSymmetric(payload, h)
  {
    hide U32Octets, ReadU32, ConversationTail;
    U32Read(payload, 0);
    U32Read(payload, 4);
    TailFields(payload, 8, ReadU32(payload, 0).value.value, None, Some(ReadU32(payload, 4).value.value), h);
    assert payload == payload[..8] + payload[8..];
    TailIff(payload[..8], payload[8..], h);
    assert payload == payload[0..4] + payload[4..8] + payload[8..];
  }

  lemma SymmetricEncoded(messageType: seq<octet>, payload: seq<octet>, h: ConversationHeader)
    requires (messageType == MSG || messageType == CLO) && messageType != OPN
    requires IsSymmetric(payload, h)
    ensures Conversation(messageType, payload) == Some(h)
  {
    hide U32Octets, ReadU32, ConversationTail;
    var a, b, tail := U32Octets(h.secureChannelId), U32Octets(h.tokenId.value), TailOctets(h);
    assert payload == [] + a + (b + tail);
    ReadsU32([], h.secureChannelId, b + tail);
    ReadsU32(a, h.tokenId.value, tail);
    TailIff(a + b, tail, h);
  }

  /** The octets of an OPN payload: channel, three strings of which the first is the policy URI, sequence header, body. */
  ghost predicate IsOpen(payload: seq<octet>, h: ConversationHeader) {
    && Representable(h) && h.securityPolicyUri.Some? && h.tokenId == None
    && exists uri, certificate, thumbprint, v, w ::
         && IsString(uri, h.securityPolicyUri.value) && IsString(certificate, v) && IsString(thumbprint, w)
         && payload == U32Octets(h.secureChannelId) + uri + certificate + thumbprint + TailOctets(h)
  }

  /** The payload of an OPN message decodes to a header exactly when it is octets for that header. */
  lemma OpenIff(payload: seq<octet>, h: ConversationHeader)
    ensures Conversation(OPN, payload) == Some(h) <==> IsOpen(payload, h)
  {
    hide Conversation, IsString, U32Octets;
    if Conversation(OPN, payload) == Some(h) {
      OpenDecoded(payload, h);
    }
    if IsOpen(payload, h) {
      var uri, certificate, thumbprint, v, w := OpenParts(payload, h);
      OpenEncoded(payload, h, uri, certificate, thumbprint, v, w);
    }
  }

  lemma OpenParts(payload: seq<octet>, h: ConversationHeader)
    returns (uri: seq<octet>, certificate: seq<octet>, thumbprint: seq<octet>, v: seq<octet>, w: seq<octet>)
    requires IsOpen(payload, h)
    ensures IsString(uri, h.securityPolicyUri.value) && IsString(certificate, v) && IsString(thumbprint, w)
    ensures payload == U32Octets(h.secureChannelId) + uri + certificate + thumbprint + TailOctets(h)
  {
    hide IsString, U32Octets;
    uri, certificate, thumbprint, v, w :|
      && IsString(uri, h.securityPolicyUri.value) && IsString(certificate, v) && IsString(thumbprint, w)
      && payload == U32Octets(h.secureChannelId) + uri + certificate + thumbprint + TailOctets(h);
  }

  lemma OpenDecoded(payload: seq<octet>, h: ConversationHeader)
    requires Conversation(OPN, payload) == Some(h)
    ensures IsOpen(payload, h)
  {
    hide U32Octets, ReadU32, ReadString, ConversationTail, IsString;
    var uri := ReadString(payload, 4).value;
    var certificate := ReadString(payload, uri.end).value;
    var thumbprint := ReadString(payload, certificate.end).value;
    var n := thumbprint.end;
    U32Read(payload, 0);
    StringRead(payload, 4);
    StringRead(payload, uri.end);
    StringRead(payload, certificate.end);
    TailFields(payload, n, ReadU32(payload, 0).value.value, Some(uri.value), None, h);
    assert payload == payload[..n] + payload[n..];
    TailIff(payload[..n], payload[n..], h);
    assert payload == payload[0..4] + payload[4..uri.end] + payload[uri.end..certificate.end]
                      + payload[certificate.end..n] + payload[n..];
  }

  lemma OpenEncoded(payload: seq<octet>, h: ConversationHeader, uri: seq<octet>, certificate: seq<octet>,
                    thumbprint: seq<octet>, v: seq<octet>, w: seq<octet>)
    requires Representable(h) && h.securityPolicyUri.Some? && h.tokenId == None
    requires IsString(uri, h.securityPolicyUri.value) && IsString(certificate, v) && IsString(thumbprint, w)
    requires payload == U32Octets(h.secureChannelId) + uri + certificate + thumbprint + TailOctets(h)
    ensures Conversation(OPN, payload) == Some(h)
  {
    hide U32Octets, ReadU32, ReadString, ConversationTail, IsString;
    var a, tail := U32Octets(h.secureChannelId), TailOctets(h);
    assert payload == [] + a + (uri + certificate + thumbprint + tail);
    assert payload == a + uri + (certificate + thumbprint + tail);
    assert payload == (a + uri) + certificate + (thumbprint + tail);
    ReadsU32([], h.secureChannelId, uri + certificate + thumbprint + tail);
    ReadsString(a, uri, h.securityPolicyUri.value, certificate + thumbprint + tail);
    ReadsString(a + uri, certificate, v, thumbprint + tail);
    ReadsString(a + uri + certificate, thumbprint, w, tail);
    TailIff(a + uri + certificate + thumbprint, tail, h);
  }

  /** A header is read from a prefix of the payload: octets appended to the payload are appended to the body. */
  lemma ConversationExtended(messageType: seq<octet>, payload: seq<octet>, more: seq<octet>)
    requires Conversation(messageType, payload).Some?
    ensures var h := Conversation(messageType, payload).value;
            Conversation(messageType, payload + more) == Some(h.(body := h.body + more))
  {
    hide LittleEndian, ReadU32, ReadString;
    forall offset: nat
      ensures ReadU32(payload, offset).Some? ==> ReadU32(payload + more, offset) == ReadU32(payload, offset)
      ensures ReadString(payload, offset).Some? ==> ReadString(payload + more, offset) == ReadString(payload, offset)
    {
      ReadsExtended(payload, more, offset);
    }
    forall offset: nat | offset <= |payload|
      ensures (payload + more)[offset..] == payload[offset..] + more
    {
    }
  }

  lemma ReadsExtended(payload: seq<octet>, more: seq<octet>, offset: nat)
    ensures ReadU32(payload, offset).Some? ==> ReadU32(payload + more, offset) == ReadU32(payload, offset)
    ensures ReadString(payload, offset).Some? ==> ReadString(payload + more, offset) == ReadString(payload, offset)
  {
    hide LittleEndian;
    if ReadU32(payload, offset).Some? {
      assert (payload + more)[offset..offset + 4] == payload[offset..offset + 4];
    }
    if ReadString(payload, offset).Some? {
      var end := ReadString(payload, offset).value.end;
      assert (payload + more)[offset + 4..end] == payload[offset + 4..end];
    }
  }

  // ---------------------------------------------------------------------------------------------------------
  // Messages octet by octet
  // ---------------------------------------------------------------------------------------------------------

  /** The octets spell an ASCII text. */
  predicate Spells(s: seq<octet>, text: string) {
    |s| == |text| && forall i :: 0 <= i < |s| ==> s[i] == text[i] as int
  }

  /** A 32-bit field, low octet first. */
  function U32At(bytes: seq<octet>, i: nat): nat
    requires i + 4 <= |bytes|
  {
    bytes[i] as nat + 0x100 * bytes[i + 1] as nat + 0x1_0000 * bytes[i + 2] as nat + 0x100_0000 * bytes[i + 3] as nat
  }

  lemma FourOctetsNumber(s: seq<octet>)
    requires |s| == 4
    ensures LittleEndian(s) == U32At(s, 0)
  {
    assert LittleEndian(s[1..]) == s[1] as nat + 0x100 * LittleEndian(s[2..]);
    assert s[1..][1..] == s[2..] && s[2..][1..] == s[3..] && s[3..][1..] == [];
    assert LittleEndian(s[2..]) == s[2] as nat + 0x100 * LittleEndian(s[3..]);
    assert LittleEndian(s[3..]) == s[3] as nat;
  }

  lemma TwoOctetsNumber(s: seq<octet>)
    requires |s| == 2
    ensures LittleEndian(s) == s[0] as nat + 0x100 * s[1] as nat
  {
    assert s[1..][1..] == [] && LittleEndian(s[1..]) == s[1] as nat;
  }

  lemma U32Slice(bytes: seq<octet>, i: nat)
    requires i + 4 <= |bytes|
    ensures LittleEndian(bytes[i..i + 4]) == U32At(bytes, i)
  {
    hide LittleEndian;
    FourOctetsNumber(bytes[i..i + 4]);
  }

  /** The seven message types. */
  predicate KnownType(t: seq<octet>) {
    || Spells(t, "HEL") || Spells(t, "ACK") || Spells(t, "ERR") || Spells(t, "RHE")
    || Spells(t, "OPN") || Spells(t, "MSG") || Spells(t, "CLO")
  }

  lemma SpellsThree(t: seq<octet>, text: string)
    requires |text| == 3
    ensures Spells(t, text) <==> |t| == 3 && t[0] == text[0] as int && t[1] == text[1] as int && t[2] == text[2] as int
  {
  }

  lemma TypeNames(t: seq<octet>)
    ensures IsMessageType(t) <==> KnownType(t)
    ensures (t == OPN <==> Spells(t, "OPN")) && (t == MSG <==> Spells(t, "MSG")) && (t == CLO <==> Spells(t, "CLO"))
  {
    hide Spells;
    SpellsThree(t, "HEL");
    SpellsThree(t, "ACK");
    SpellsThree(t, "ERR");
    SpellsThree(t, "RHE");
    SpellsThree(t, "OPN");
    SpellsThree(t, "MSG");
    SpellsThree(t, "CLO");
  }

  /** Final, intermediate or abort. */
  predicate KnownChunk(c: octet) {
    c == 'F' as int || c == 'C' as int || c == 'A' as int
  }

  /** When a message is refused, and why: the checks in their order. */
  lemma RefusedIff(bytes: seq<octet>)
    ensures forall needed ::
              Decode(bytes) == Err(Incomplete(needed))
              <==> || (|bytes| < 8 && needed == 8)
                   || (&& |bytes| >= 8 && KnownType(bytes[..3]) && KnownChunk(bytes[3])
                       && 8 <= needed == U32At(bytes, 4) && |bytes| < needed)
    ensures Decode(bytes) == Err(BadType) <==> |bytes| >= 8 && !KnownType(bytes[..3])
    ensures forall c ::
              Decode(bytes) == Err(BadChunk(c))
              <==> |bytes| >= 8 && KnownType(bytes[..3]) && c == bytes[3] && !KnownChunk(c)
    ensures forall n ::
              Decode(bytes) == Err(BadSize(n))
              <==> |bytes| >= 8 && KnownType(bytes[..3]) && KnownChunk(bytes[3]) && n == U32At(bytes, 4) < 8
  {
    hide IsMessageType, KnownType, LittleEndian, Conversation, ParseNodeId, U32At;
    if |bytes| >= 8 {
      TypeNames(bytes[..3]);
      U32Slice(bytes, 4);
    }
  }

  /** Whether messages of this type have a conversation header. */
  predicate Conversing(t: seq<octet>) {
    Spells(t, "OPN") || Spells(t, "MSG") || Spells(t, "CLO")
  }

  /** What an accepted message is made of. */
  predicate Composed(bytes: seq<octet>, d: Decoded<OpcUaFrame>)
    requires |bytes| >= 8
  {
    var size := U32At(bytes, 4);
    && d.consumed == size && 8 <= size <= |bytes| && KnownType(bytes[..3]) && KnownChunk(bytes[3])
    && d.frame.header == MessageHeader(bytes[..3], bytes[3], size)
    && d.frame.conversation == (if Conversing(bytes[..3]) then Conversation(bytes[..3], bytes[8..size]) else None)
    && d.frame.service == if d.frame.conversation.Some? then ParseNodeId(d.frame.conversation.value.body) else None
  }

  lemma AcceptedIff(bytes: seq<octet>, d: Decoded<OpcUaFrame>)
    ensures Decode(bytes) == Ok(d) <==> |bytes| >= 8 && Composed(bytes, d)
  {
    hide IsMessageType, KnownType, LittleEndian, Conversation, ParseNodeId, U32At, Spells;
    if |bytes| >= 8 {
      TypeNames(bytes[..3]);
      U32Slice(bytes, 4);
    }
  }

  /** The three encodings of a node identifier that are read, octet by octet; anything else is none. */
  lemma NodeIdIff(bytes: seq<octet>, node: ServiceNodeId)
    ensures ParseNodeId(bytes) == Some(node)
       <==> || (|bytes| >= 2 && bytes[0] == 0x00 && node.namespace == 0 && node.identifier == bytes[1] as nat)
            || (&& |bytes| >= 4 && bytes[0] == 0x01 && node.namespace == bytes[1] as nat
                && node.identifier == bytes[2] as nat + 0x100 * bytes[3] as nat)
            || (&& |bytes| >= 7 && bytes[0] == 0x02 && node.namespace == bytes[1] as nat + 0x100 * bytes[2] as nat
                && node.identifier == U32At(bytes, 3))
  {
    hide LittleEndian, U32At;
    if |bytes| >= 4 {
      TwoOctetsNumber(bytes[2..4]);
    }
    if |bytes| >= 7 {
      TwoOctetsNumber(bytes[1..3]);
      U32Slice(bytes, 3);
    }
  }

  /** The sequence header: two fields right before the body. */
  predicate TailAt(payload: seq<octet>, i: nat, h: ConversationHeader) {
    && i + 8 <= |payload| && h.sequenceNumber == U32At(payload, i) && h.requestId == U32At(payload, i + 4)
    && h.body == payload[i + 8..]
  }

  lemma TailIs(payload: seq<octet>, i: nat, channel: nat, uri: Option<seq<octet>>, token: Option<nat>, h: ConversationHeader)
    ensures ConversationTail(payload, i, channel, uri, token) == Some(h)
       <==> h.secureChannelId == channel && h.securityPolicyUri == uri && h.tokenId == token && TailAt(payload, i, h)
  {
    hide LittleEndian, U32At;
    if i + 4 <= |payload| {
      U32Slice(payload, i);
    }
    if i + 8 <= |payload| {
      U32Slice(payload, i + 4);
    }
  }

  /** An MSG or CLO payload, field by field: channel, token, sequence number, request id, body. */
  lemma SymmetricLayout(messageType: seq<octet>, payload: seq<octet>, h: ConversationHeader)
    requires Spells(messageType, "MSG") || Spells(messageType, "CLO")
    ensures Conversation(messageType, payload) == Some(h)
       <==> && |payload| >= 16 && h.secureChannelId == U32At(payload, 0) && h.securityPolicyUri == None
            && h.tokenId == Some(U32At(payload, 4)) && TailAt(payload, 8, h)
  {
    hide LittleEndian, U32At, ConversationTail;
    TypeNames(messageType);
    assert messageType[0] == 'M' as int || messageType[0] == 'C' as int;
    if |payload| >= 4 {
      U32Slice(payload, 0);
    }
    if |payload| >= 8 {
      U32Slice(payload, 4);
      TailIs(payload, 8, U32At(payload, 0), None, Some(U32At(payload, 4)), h);
    }
  }

  /** Where the string that starts at `i` ends; a length of 2^31 or more is negative and has no octets. */
  function StringEnd(payload: seq<octet>, i: nat): nat
    requires i + 4 <= |payload|
  {
    if U32At(payload, i) < 0x8000_0000 then i + 4 + U32At(payload, i) else i + 4
  }

  lemma StringAt(payload: seq<octet>, i: nat)
    ensures ReadString(payload, i)
         == if i + 4 <= |payload| && StringEnd(payload, i) <= |payload|
            then Some(Field(payload[i + 4..StringEnd(payload, i)], StringEnd(payload, i))) else None
  {
    hide LittleEndian, U32At;
    if i + 4 <= |payload| {
      U32Slice(payload, i);
      assert payload[i + 4..i + 4] == [];
    }
  }

  /** The three strings of an OPN payload, of which the first is the policy URI, end at `a`, `b` and `c`. */
  predicate StringsEnd(payload: seq<octet>, a: nat, b: nat, c: nat) {
    && 8 <= |payload| && a == StringEnd(payload, 4) && a + 4 <= |payload| && b == StringEnd(payload, a)
    && b + 4 <= |payload| && c == StringEnd(payload, b) && c <= |payload|
  }

  /** An OPN payload, field by field: channel, URI, certificate, thumbprint, sequence number, request id, body. */
  lemma OpenLayout(messageType: seq<octet>, payload: seq<octet>, h: ConversationHeader)
    requires Spells(messageType, "OPN")
    ensures Conversation(messageType, payload) == Some(h)
       <==> exists a: nat, b: nat, c: nat ::
              && StringsEnd(payload, a, b, c) && h.secureChannelId == U32At(payload, 0)
              && h.securityPolicyUri == Some(payload[8..a]) && h.tokenId == None && TailAt(payload, c, h)
  {
    hide LittleEndian, U32At, ConversationTail, ReadString;
    TypeNames(messageType);
    if |payload| >= 8 {
      U32Slice(payload, 0);
      StringAt(payload, 4);
      var a := StringEnd(payload, 4);
      StringAt(payload, a);
      if a + 4 <= |payload| {
        var b := StringEnd(payload, a);
        StringAt(payload, b);
        if b + 4 <= |payload| {
          var c := StringEnd(payload, b);
          assert c <= |payload| ==> StringsEnd(payload, a, b, c);
          TailIs(payload, c, U32At(payload, 0), Some(payload[8..if a >= 8 then a else 8]), None, h);
        }
      }
    } else {
      StringAt(payload, 4);
    }
  }
}
