/**
 * The AWS binary EventStream framing the Bedrock stub emits, and a decoder written from the
 * layout alone: total length, headers length, prelude CRC, headers, payload, message CRC.
 * Event types and payloads are the octets after `str.encode` and `json.dumps(..).encode`.
 */
module EventStream {
  import opened Prelude
  import opened Bytes

  /** crc32 of some octets; `& 0xFFFFFFFF` is the reduction below. */
  type Checksum = seq<byte> -> nat

  datatype Header = Header(name: seq<byte>, value: seq<byte>)
  datatype Event = Event(eventType: seq<byte>, payload: seq<byte>)

  const WORD: nat := 0x1_0000_0000

  function Be16(n: nat): seq<byte> { ToBytes(n, 2) }
  function Be32(n: nat): seq<byte> { ToBytes(n, 4) }

  function Crc(checksum: Checksum, data: seq<byte>): seq<byte> {
    Be32(checksum(data) % WORD)
  }

  // ":event-type", ":content-type", ":message-type", "application/json" and "event".
  const EVENT_TYPE: seq<byte> := [58, 101, 118, 101, 110, 116, 45, 116, 121, 112, 101]
  const CONTENT_TYPE: seq<byte> := [58, 99, 111, 110, 116, 101, 110, 116, 45, 116, 121, 112, 101]
  const MESSAGE_TYPE: seq<byte> := [58, 109, 101, 115, 115, 97, 103, 101, 45, 116, 121, 112, 101]
  const JSON_TYPE: seq<byte> := [97, 112, 112, 108, 105, 99, 97, 116, 105, 111, 110, 47, 106, 115, 111, 110]
  const EVENT: seq<byte> := [101, 118, 101, 110, 116]

  // ---------------------------------------------------------------------------
  // Encoder
  // ---------------------------------------------------------------------------

  /** One string header; None: the length byte or the 16-bit length cannot hold it. */
  function EsHeader(h: Header): Option<seq<byte>> {
    if |h.name| > 255 || |h.value| > 0xFFFF then None
    else Some([|h.name|] + h.name + [7] + Be16(|h.value|) + h.value)
  }

  function EsHeaders(hs: seq<Header>): Option<seq<byte>> {
    if hs == [] then Some([]) else
    match (EsHeader(hs[0]), EsHeaders(hs[1..]))
    case (Some(first), Some(rest)) => Some(first + rest)
    case _ => None
  }

  /** The frame around encoded headers and a body; None: a length exceeds 32 bits. */
  function Frame(checksum: Checksum, headers: seq<byte>, body: seq<byte>): Option<seq<byte>> {
    var totalLen := 12 + |headers| + |body| + 4;
    if totalLen >= WORD then None else
    var prelude := Be32(totalLen) + Be32(|headers|);
    var message := prelude + Crc(checksum, prelude) + headers + body;
    Some(message + Crc(checksum, message))
  }

  /** The three headers of every message. */
  function EventHeaders(eventType: seq<byte>): seq<Header> {
    [Header(EVENT_TYPE, eventType), Header(CONTENT_TYPE, JSON_TYPE), Header(MESSAGE_TYPE, EVENT)]
  }

  function EsMessage(checksum: Checksum, event: Event): Option<seq<byte>> {
    match EsHeaders(EventHeaders(event.eventType))
    case None => None
    case Some(headers) => Frame(checksum, headers, event.payload)
  }

  /** The messages of a stream, joined. */
  function EncodeStream(checksum: Checksum, events: seq<Event>): Option<seq<byte>> {
    if events == [] then Some([]) else
    match (EsMessage(checksum, events[0]), EncodeStream(checksum, events[1..]))
    case (Some(first), Some(rest)) => Some(first + rest)
    case _ => None
  }

  // ---------------------------------------------------------------------------
  // Decoder
  // ---------------------------------------------------------------------------

  function DecodeHeaders(data: seq<byte>): Option<seq<Header>>
    decreases |data|
  {
    if data == [] then Some([]) else
    var nameEnd: nat := data[0] as int + 1;
    if |data| < nameEnd + 3 || data[nameEnd] != 7 then None else
    var valueEnd := nameEnd + 3 + FromBytes(data[nameEnd + 1..nameEnd + 3]);
    if |data| < valueEnd then None else
    match DecodeHeaders(data[valueEnd..])
    case None => None
    case Some(rest) => Some([Header(data[1..nameEnd], data[nameEnd + 3..valueEnd])] + rest)
  }

  /** One frame off the front: encoded headers, body, and what follows. */
  function DecodeFrame(checksum: Checksum, data: seq<byte>): Option<(seq<byte>, seq<byte>, seq<byte>)> {
    if |data| < 16 then None else
    var totalLen := FromBytes(data[..4]);
    var headersLen := FromBytes(data[4..8]);
    if totalLen < 16 + headersLen || |data| < totalLen then None
    else if data[8..12] != Crc(checksum, data[..8]) then None
    else if data[totalLen - 4..totalLen] != Crc(checksum, data[..totalLen - 4]) then None
    else Some((data[12..12 + headersLen], data[12 + headersLen..totalLen - 4], data[totalLen..]))
  }

  function DecodeEvent(headers: seq<byte>, body: seq<byte>): Option<Event> {
    match DecodeHeaders(headers)
    case None => None
    case Some(hs) =>
      if |hs| == 3 && hs == EventHeaders(hs[0].value) then Some(Event(hs[0].value, body)) else None
  }

  function DecodeStream(checksum: Checksum, data: seq<byte>): Option<seq<Event>>
    decreases |data|
  {
    if data == [] then Some([]) else
    match DecodeFrame(checksum, data)
    case None => None
    case Some((headers, body, rest)) =>
      if |rest| >= |data| then None else
      match (DecodeEvent(headers, body), DecodeStream(checksum, rest))
      case (Some(event), Some(events)) => Some([event] + events)
      case _ => None
  }

  // ---------------------------------------------------------------------------
  // Fields
  // ---------------------------------------------------------------------------

  lemma Be16Field(n: nat)
    requires n <= 0xFFFF
    ensures |Be16(n)| == 2 && FromBytes(Be16(n)) == n
  {
    assert Pow256(1) == 256 * Pow256(0) && Pow256(2) == 256 * Pow256(1);
    FromToBytes(n, 2);
  }

  lemma WordIs()
    ensures Pow256(4) == WORD
  {
    assert Pow256(1) == 256 * Pow256(0) && Pow256(2) == 256 * Pow256(1) && Pow256(3) == 256 * Pow256(2);
  }

  lemma Be32Field(n: nat)
    requires n < WORD
    ensures |Be32(n)| == 4 && FromBytes(Be32(n)) == n
  {
    WordIs();
    FromToBytes(n, 4);
  }

  /** Any field octets are the encoding of the value read from them. */
  lemma FieldIs(octets: seq<byte>)
    ensures |octets| == 2 ==> FromBytes(octets) <= 0xFFFF && Be16(FromBytes(octets)) == octets
    ensures |octets| == 4 ==> FromBytes(octets) < WORD && Be32(FromBytes(octets)) == octets
  {
    FromBytesBound(octets);
    ToFromBytes(octets);
    WordIs();
    assert Pow256(1) == 256 * Pow256(0) && Pow256(2) == 256 * Pow256(1);
  }

  // ---------------------------------------------------------------------------
  // Headers: decoding inverts encoding, and accepts nothing else
  // ---------------------------------------------------------------------------

  /** What the decoder does with one well-formed header in front. */
  lemma DecodeHeadersCons(h: Header, rest: seq<byte>)
    requires |h.name| <= 255 && |h.value| <= 0xFFFF
    ensures DecodeHeaders(EsHeader(h).value + rest)
         == match DecodeHeaders(rest) case None => None case Some(hs) => Some([h] + hs)
  {
    Be16Field(|h.value|);
    var data := EsHeader(h).value + rest;
    var nameEnd := 1 + |h.name|;
    assert data[0] == |h.name| && data[nameEnd] == 7;
    assert data[nameEnd + 1..nameEnd + 3] == Be16(|h.value|);
    var valueEnd := nameEnd + 3 + |h.value|;
    assert data[1..nameEnd] == h.name;
    assert data[nameEnd + 3..valueEnd] == h.value;
    assert data[valueEnd..] == rest;
  }

  lemma {:induction false} DecodeEncodeHeaders(hs: seq<Header>)
    requires EsHeaders(hs).Some?
    ensures DecodeHeaders(EsHeaders(hs).value) == Some(hs)
  {
    if hs != [] {
      DecodeHeadersCons(hs[0], EsHeaders(hs[1..]).value);
      DecodeEncodeHeaders(hs[1..]);
      assert hs == [hs[0]] + hs[1..];
    }
  }

  lemma {:induction false} EncodeDecodeHeaders(data: seq<byte>)
    requires DecodeHeaders(data).Some?
    ensures EsHeaders(DecodeHeaders(data).value) == Some(data)
    decreases |data|
  {
    if data != [] {
      var h, rest := HeadOf(data);
      EncodeDecodeHeaders(rest);
      assert DecodeHeaders(data).value[1..] == DecodeHeaders(rest).value;
    }
  }

  /** The header and the remainder the decoder sees are an encoded header and its continuation. */
  lemma HeadOf(data: seq<byte>) returns (h: Header, rest: seq<byte>)
    requires data != [] && DecodeHeaders(data).Some?
    ensures |rest| < |data| && DecodeHeaders(rest).Some?
    ensures DecodeHeaders(data).value == [h] + DecodeHeaders(rest).value
    ensures EsHeader(h).Some? && EsHeader(h).value + rest == data
  {
    var nameEnd: nat := data[0] as int + 1;
    var octets := data[nameEnd + 1..nameEnd + 3];
    var valueEnd := nameEnd + 3 + FromBytes(octets);
    FieldIs(octets);
    h, rest := Header(data[1..nameEnd], data[nameEnd + 3..valueEnd]), data[valueEnd..];
    assert Be16(|h.value|) == octets;
    HeaderOctets(data, nameEnd, valueEnd);
  }

  lemma HeaderOctets(data: seq<byte>, nameEnd: nat, valueEnd: nat)
    requires 1 <= nameEnd && nameEnd + 3 <= valueEnd <= |data|
    ensures [data[0]] + data[1..nameEnd] + [data[nameEnd]] + data[nameEnd + 1..nameEnd + 3]
      + data[nameEnd + 3..valueEnd] + data[valueEnd..] == data
  {
  }

  // ---------------------------------------------------------------------------
  // Frames
  // ---------------------------------------------------------------------------

  /** `total_len` is the real octet count of the message. */
  lemma FrameLength(checksum: Checksum, headers: seq<byte>, body: seq<byte>)
    requires Frame(checksum, headers, body).Some?
    ensures var m := Frame(checksum, headers, body).value;
      |m| == 16 + |headers| + |body| && FromBytes(m[..4]) == |m|
  {
    var m := Frame(checksum, headers, body).value;
    Be32Field(12 + |headers| + |body| + 4);
    assert m[..4] == Be32(12 + |headers| + |body| + 4);
  }

  /** The four numbers of a message: its length, its headers' length, and both checksums modulo 2^32. */
  lemma FrameLayout(checksum: Checksum, headers: seq<byte>, body: seq<byte>)
    requires Frame(checksum, headers, body).Some?
    ensures var m := Frame(checksum, headers, body).value; var n := |m|;
      && n == 16 + |headers| + |body|
      && m[12..12 + |headers|] == headers && m[12 + |headers|..n - 4] == body
      && FromBytes(m[..4]) == n && FromBytes(m[4..8]) == |headers|
      && FromBytes(m[8..12]) == checksum(m[..8]) % 0x1_0000_0000
      && FromBytes(m[n - 4..]) == checksum(m[..n - 4]) % 0x1_0000_0000
  {
    var none: seq<byte> := [];
    var m := Frame(checksum, headers, body).value;
    FrameLength(checksum, headers, body);
    DecodeFrameOf(checksum, headers, body, none);
    assert m + none == m;
    Be32Field(|headers|);
    CrcField(checksum, m[..8]);
    CrcField(checksum, m[..|m| - 4]);
    assert m[4..8] == Be32(|headers|);
    assert m[|m| - 4..] == m[|m| - 4..|m|];
  }

  lemma CrcField(checksum: Checksum, data: seq<byte>)
    ensures FromBytes(Crc(checksum, data)) == checksum(data) % 0x1_0000_0000
  {
    Be32Field(checksum(data) % WORD);
  }

  /** A frame is read off the front of any continuation. */
  lemma DecodeFrameOf(checksum: Checksum, headers: seq<byte>, body: seq<byte>, rest: seq<byte>)
    requires Frame(checksum, headers, body).Some?
    ensures DecodeFrame(checksum, Frame(checksum, headers, body).value + rest) == Some((headers, body, rest))
  {
    var total := 12 + |headers| + |body| + 4;
    Be32Field(total);
    Be32Field(|headers|);
    var prelude := Be32(total) + Be32(|headers|);
    var message := prelude + Crc(checksum, prelude) + headers + body;
    var data := message + Crc(checksum, message) + rest;
    assert data[..4] == Be32(total);
    assert data[4..8] == Be32(|headers|);
    assert data[..8] == prelude;
    assert data[8..12] == Crc(checksum, prelude);
    assert data[..total - 4] == message;
    assert data[total - 4..total] == Crc(checksum, message);
    assert data[12..12 + |headers|] == headers;
    assert data[12 + |headers|..total - 4] == body;
    assert data[total..] == rest;
  }

  /** Whatever the decoder accepts as a frame is the frame of what it returns. */
  lemma FrameOfDecoded(checksum: Checksum, data: seq<byte>)
    requires DecodeFrame(checksum, data).Some?
    ensures var (headers, body, rest) := DecodeFrame(checksum, data).value;
      Frame(checksum, headers, body).Some? && Frame(checksum, headers, body).value + rest == data
  {
    var (headers, body, rest) := DecodeFrame(checksum, data).value;
    FieldIs(data[..4]);
    FieldIs(data[4..8]);
    var total := FromBytes(data[..4]);
    var prelude := Be32(total) + Be32(|headers|);
    assert prelude == data[..8];
    var message := prelude + Crc(checksum, prelude) + headers + body;
    assert message == data[..total - 4];
    assert message + Crc(checksum, message) == data[..total];
  }

  // ---------------------------------------------------------------------------
  // Streams
  // ---------------------------------------------------------------------------

  lemma DecodeEventIff(headers: seq<byte>, body: seq<byte>, event: Event)
    ensures DecodeEvent(headers, body) == Some(event)
      <==> EsHeaders(EventHeaders(event.eventType)) == Some(headers) && body == event.payload
  {
    if DecodeEvent(headers, body) == Some(event) {
      EncodeDecodeHeaders(headers);
    }
    if EsHeaders(EventHeaders(event.eventType)) == Some(headers) {
      DecodeEncodeHeaders(EventHeaders(event.eventType));
    }
  }

  lemma {:induction false} DecodeEncodeStream(checksum: Checksum, events: seq<Event>)
    requires EncodeStream(checksum, events).Some?
    ensures DecodeStream(checksum, EncodeStream(checksum, events).value) == Some(events)
  {
    if events != [] {
      var event, rest := events[0], EncodeStream(checksum, events[1..]).value;
      var headers := EsHeaders(EventHeaders(event.eventType)).value;
      FrameLength(checksum, headers, event.payload);
      DecodeFrameOf(checksum, headers, event.payload, rest);
      DecodeEventIff(headers, event.payload, event);
      DecodeEncodeStream(checksum, events[1..]);
      assert events == [event] + events[1..];
    }
  }

  lemma {:induction false} EncodeDecodeStream(checksum: Checksum, data: seq<byte>)
    requires DecodeStream(checksum, data).Some?
    ensures EncodeStream(checksum, DecodeStream(checksum, data).value) == Some(data)
    decreases |data|
  {
    if data != [] {
      var (headers, body, rest) := DecodeFrame(checksum, data).value;
      var event := DecodeEvent(headers, body).value;
      FrameOfDecoded(checksum, data);
      DecodeEventIff(headers, body, event);
      EncodeDecodeStream(checksum, rest);
      assert DecodeStream(checksum, data).value[1..] == DecodeStream(checksum, rest).value;
    }
  }

  /**
   * The framing is self-delimiting and exact: the decoder returns a list of events iff the
   * octets are the concatenated encodings of that list.
   */
  lemma StreamDecodesIff(checksum: Checksum, data: seq<byte>, events: seq<Event>)
    ensures DecodeStream(checksum, data) == Some(events) <==> EncodeStream(checksum, events) == Some(data)
  {
    if DecodeStream(checksum, data) == Some(events) {
      EncodeDecodeStream(checksum, data);
    }
    if EncodeStream(checksum, events) == Some(data) {
      DecodeEncodeStream(checksum, events);
    }
  }

  /** The octets of these characters, one each. */
  predicate IsText(octets: seq<byte>, text: string) {
    |octets| == |text| && forall i :: 0 <= i < |text| ==> octets[i] == text[i] as int
  }

  lemma EventTypeName()
    ensures IsText(EVENT_TYPE, ":event-type")
  {
  }

  lemma ContentTypeName()
    ensures IsText(CONTENT_TYPE, ":content-type")
  {
  }

  lemma MessageTypeName()
    ensures IsText(MESSAGE_TYPE, ":message-type")
  {
  }

  lemma JsonTypeName()
    ensures IsText(JSON_TYPE, "application/json") && IsText(EVENT, "event")
  {
  }

  /** What is in the header block, in order: three string headers under these names. */
  predicate NamesItsEvent(hs: seq<Header>, eventType: seq<byte>) {
    && |hs| == 3
    && IsText(hs[0].name, ":event-type") && hs[0].value == eventType
    && IsText(hs[1].name, ":content-type") && IsText(hs[1].value, "application/json")
    && IsText(hs[2].name, ":message-type") && IsText(hs[2].value, "event")
  }

  /** What a consumer finds in a message, whatever follows it: those headers, and the payload. */
  lemma {:induction false} MessageIs(checksum: Checksum, event: Event, rest: seq<byte>)
    requires EsMessage(checksum, event).Some?
    ensures var frame := DecodeFrame(checksum, EsMessage(checksum, event).value + rest);
      && frame.Some? && frame.value.1 == event.payload && frame.value.2 == rest
      && DecodeHeaders(frame.value.0).Some?
      && NamesItsEvent(DecodeHeaders(frame.value.0).value, event.eventType)
  {
    var hs := EventHeaders(event.eventType);
    DecodeFrameOf(checksum, EsHeaders(hs).value, event.payload, rest);
    DecodeEncodeHeaders(hs);
    EventTypeName();
    ContentTypeName();
    MessageTypeName();
    JsonTypeName();
  }

  /** A message is encodable iff its event type fits 16 bits and its frame 32 bits. */
  lemma EsMessageDefined(checksum: Checksum, event: Event)
    ensures EsMessage(checksum, event).Some?
      <==> |event.eventType| <= 0xFFFF && 86 + |event.eventType| + |event.payload| < WORD
  {
    var first := Header(EVENT_TYPE, event.eventType);
    var second, third := Header(CONTENT_TYPE, JSON_TYPE), Header(MESSAGE_TYPE, EVENT);
    EsHeadersCons(third, []);
    EsHeadersCons(second, [third]);
    EsHeadersCons(first, [second, third]);
    assert [third] + [] == [third] && [second] + [third] == [second, third];
    assert [first] + [second, third] == EventHeaders(event.eventType);
  }

  lemma EsHeadersCons(h: Header, rest: seq<Header>)
    ensures EsHeaders([h] + rest).Some? <==> EsHeader(h).Some? && EsHeaders(rest).Some?
    ensures EsHeaders([h] + rest).Some? ==>
      |EsHeaders([h] + rest).value| == 4 + |h.name| + |h.value| + |EsHeaders(rest).value|
  {
    assert ([h] + rest)[1..] == rest;
  }
}
