/** Ethernet, IPv4 and UDP framing around MoldUDP64 packets. */
module WireFrames {
  import opened Wrappers
  import opened Bytes
  import opened BinaryFile
  import opened MoldUdp

  const ETH_HEADER_LENGTH: nat := 14
  const IPV4_HEADER_LENGTH: nat := 20
  const UDP_HEADER_LENGTH: nat := 8
  const IP_PROTOCOL_UDP: Byte := 17
  const ETHERTYPE_IPV4: nat := 0x0800
  const SRC_MAC: ByteString := [2, 0, 0, 0, 0, 1]
  const DST_MAC: ByteString := [2, 0, 0, 0, 0, 2]
  const SRC_IP: ByteString := [10, 0, 0, 1]
  const DST_IP: ByteString := [10, 0, 0, 2]

  /** Whether a packet of some length fits the 16-bit length fields of its headers. */
  predicate LengthFits(packetLength: nat) {
    Fits(IPV4_HEADER_LENGTH + UDP_HEADER_LENGTH + packetLength, 2)
  }

  function FrameParts(packet: ByteString, srcPort: nat, dstPort: nat): seq<ByteString>
    requires LengthFits(|packet|) && Fits(srcPort, 2) && Fits(dstPort, 2)
  {
    FieldWidths();
    var udpLength := UDP_HEADER_LENGTH + |packet|;
    [ DST_MAC, SRC_MAC, Uint(ETHERTYPE_IPV4, 2),
      [0x45, 0x00], Uint(IPV4_HEADER_LENGTH + udpLength, 2), Uint(0, 2), Uint(0, 2),
      [64, IP_PROTOCOL_UDP], Uint(0, 2), SRC_IP, DST_IP,
      Uint(srcPort, 2), Uint(dstPort, 2), Uint(udpLength, 2), Uint(0, 2),
      packet ]
  }

  function WireFrame(packet: ByteString, srcPort: nat, dstPort: nat): ByteString
    requires LengthFits(|packet|) && Fits(srcPort, 2) && Fits(dstPort, 2)
  {
    Join(FrameParts(packet, srcPort, dstPort))
  }

  // ----- splitting a byte stream into frames

  /** The IPv4 header length a frame announces, in bytes. */
  function HeaderLengthAt(data: ByteString, offset: nat): nat
    requires offset < |data|
  {
    data[offset] % 16 * 4
  }

  /** The frame at the front of a stream, or why there is none. */
  function FirstFrame(data: ByteString): Result<nat, NetworkError>
    requires data != []
  {
    if |data| < ETH_HEADER_LENGTH + IPV4_HEADER_LENGTH then Err(TruncatedFrame)
    else
      var headerLength := HeaderLengthAt(data, ETH_HEADER_LENGTH);
      if headerLength < IPV4_HEADER_LENGTH then Err(InvalidHeaderLength)
      else if |data| < ETH_HEADER_LENGTH + headerLength then Err(TruncatedIpHeader)
      else
        var totalLength := U16(data, ETH_HEADER_LENGTH + 2);
        if totalLength < headerLength + UDP_HEADER_LENGTH then Err(InvalidTotalLength)
        else if ETH_HEADER_LENGTH + totalLength > |data| then Err(FrameExceedsStream)
        else Ok(ETH_HEADER_LENGTH + totalLength)
  }

  function EthernetFrames(data: ByteString): Output<ByteString>
    decreases |data|
  {
    if data == [] then Output([], None)
    else match FirstFrame(data)
      case Err(error) => Output([], Some(error))
      case Ok(length) =>
        var rest := EthernetFrames(data[length..]);
        Output([data[..length]] + rest.items, rest.error)
  }

  /** A frame whose own length fields account for all of it. */
  predicate WellFramed(frame: ByteString) {
    frame != [] && FirstFrame(frame) == Ok(|frame|)
  }

  lemma FirstFrameWellFramed(data: ByteString)
    requires data != [] && FirstFrame(data).Ok?
    ensures 42 <= FirstFrame(data).value <= |data|
    ensures WellFramed(data[..FirstFrame(data).value])
  {
    var frame := data[..FirstFrame(data).value];
    assert Slice(frame, 16, 18) == Slice(data, 16, 18);
  }

  function Flatten(frames: seq<ByteString>): ByteString {
    if frames == [] then [] else frames[0] + Flatten(frames[1..])
  }

  lemma FlattenCons(frame: ByteString, rest: seq<ByteString>)
    ensures Flatten([frame] + rest) == frame + Flatten(rest)
  {
  }

  /** A stream splits without error into well-formed frames of at least 42 bytes that concatenate to it. */
  lemma {:induction false} FramesTileStream(data: ByteString)
    requires EthernetFrames(data).error == None
    ensures var frames := EthernetFrames(data).items;
      Flatten(frames) == data && forall f :: f in frames ==> WellFramed(f) && |f| >= 42
    decreases |data|
  {
    hide FirstFrame, WellFramed, EthernetFrames, Flatten;
    if data == [] {
      NothingToSplit(data);
      NothingFlat();
    } else {
      var length := FirstSplit(data);
      FirstFrameWellFramed(data);
      FramesTileStream(data[length..]);
      FlattenCons(data[..length], EthernetFrames(data[length..]).items);
      assert data[..length] + data[length..] == data;
    }
  }

  lemma NothingFlat()
    ensures Flatten([]) == []
  {
  }

  /** An accepted stream starts with a frame and goes on with an accepted stream. */
  lemma FirstSplit(data: ByteString) returns (length: nat)
    requires data != [] && EthernetFrames(data).error == None
    ensures FirstFrame(data) == Ok(length) && 0 < length <= |data|
    ensures var rest := EthernetFrames(data[length..]);
      rest.error == None && EthernetFrames(data).items == [data[..length]] + rest.items
  {
    hide FirstFrame;
    length := FirstFrame(data).value;
    FirstFrameWellFramed(data);
  }

  /** The stream splitter's loop. */
  method IterEthernetFrames(data: ByteString) returns (frames: seq<ByteString>, error: Option<NetworkError>)
    ensures Output(frames, error) == EthernetFrames(data)
  {
    hide HeaderLengthAt, U16, EthernetFrames;
    frames, error := [], None;
    var cursor := 0;
    ghost var whole := EthernetFrames(data);
    ghost var rest := whole;
    assert data[0..] == data;
    while cursor < |data|
      invariant cursor <= |data|
      invariant rest == EthernetFrames(data[cursor..])
      invariant whole == Output(frames + rest.items, rest.error)
    {
      SplitAt(data, cursor);
      FieldsOfTail(data, cursor);
      if |data| - cursor < ETH_HEADER_LENGTH + IPV4_HEADER_LENGTH {
        return frames, Some(TruncatedFrame);
      }
      var ipOffset := cursor + ETH_HEADER_LENGTH;
      var headerLength := HeaderLengthAt(data, ipOffset);
      if headerLength < IPV4_HEADER_LENGTH {
        return frames, Some(InvalidHeaderLength);
      }
      if |data| - cursor < ETH_HEADER_LENGTH + headerLength {
        return frames, Some(TruncatedIpHeader);
      }
      var totalLength := U16(data, ipOffset + 2);
      var frameLength := ETH_HEADER_LENGTH + totalLength;
      if totalLength < headerLength + UDP_HEADER_LENGTH {
        return frames, Some(InvalidTotalLength);
      }
      if cursor + frameLength > |data| {
        return frames, Some(FrameExceedsStream);
      }
      rest := EthernetFrames(data[cursor + frameLength..]);
      assert frames + ([data[cursor..cursor + frameLength]] + rest.items)
          == frames + [data[cursor..cursor + frameLength]] + rest.items;
      frames := frames + [data[cursor..cursor + frameLength]];
      cursor := cursor + frameLength;
    }
    NothingToSplit(data[cursor..]);
  }

  lemma NothingToSplit(data: ByteString)
    requires data == []
    ensures EthernetFrames(data) == Output([], None)
  {
  }

  /** One turn of the splitter at some cursor. */
  lemma SplitAt(data: ByteString, cursor: nat)
    requires cursor < |data|
    ensures match FirstFrame(data[cursor..])
      case Err(error) => EthernetFrames(data[cursor..]) == Output([], Some(error))
      case Ok(length) =>
        && cursor + length <= |data|
        && var rest := EthernetFrames(data[cursor + length..]);
           EthernetFrames(data[cursor..]) == Output([data[cursor..cursor + length]] + rest.items, rest.error)
  {
    var tail := data[cursor..];
    if FirstFrame(tail).Ok? {
      var length := FirstFrame(tail).value;
      FirstFrameWellFramed(tail);
      hide FirstFrame;
      assert tail[..length] == data[cursor..cursor + length];
      assert tail[length..] == data[cursor + length..];
    }
  }

  lemma FieldsOfTail(data: ByteString, cursor: nat)
    requires cursor <= |data|
    ensures cursor + 34 <= |data| ==>
      && HeaderLengthAt(data[cursor..], 14) == HeaderLengthAt(data, cursor + 14)
      && U16(data[cursor..], 16) == U16(data, cursor + 16)
  {
    if cursor + 34 <= |data| {
      assert Slice(data[cursor..], 16, 18) == Slice(data, cursor + 16, cursor + 18);
    }
  }

  /** What stands at the front of a stream, byte by byte: a frame, or the first thing wrong with it. */
  lemma FirstFrameExactly(data: ByteString)
    requires data != []
    ensures FirstFrame(data)
         == if |data| < 34 then Err(TruncatedFrame)
            else
              var headerLength, totalLength := 4 * (data[14] % 16) as nat, 0x100 * data[16] as nat + data[17] as nat;
              if headerLength < 20 then Err(InvalidHeaderLength)
              else if |data| < 14 + headerLength then Err(TruncatedIpHeader)
              else if totalLength < headerLength + 8 then Err(InvalidTotalLength)
              else if |data| < 14 + totalLength then Err(FrameExceedsStream)
              else Ok(14 + totalLength)
  {
    hide Field;
    BigEndian(data, 16);
  }

  // ----- from a frame to its packet

  /** Every header byte read here lies inside a well-formed frame. */
  function UdpPayload(frame: ByteString): Result<ByteString, NetworkError>
    requires WellFramed(frame)
  {
    if U16(frame, 12) != ETHERTYPE_IPV4 then Err(NotIpv4EtherType)
    else if frame[ETH_HEADER_LENGTH] / 16 != 4 then Err(NotIpv4)
    else if frame[ETH_HEADER_LENGTH + 9] != IP_PROTOCOL_UDP then Err(NotUdp)
    else
      var udpOffset := ETH_HEADER_LENGTH + HeaderLengthAt(frame, ETH_HEADER_LENGTH);
      var udpLength := U16(frame, udpOffset + 4);
      if udpLength < UDP_HEADER_LENGTH then Err(InvalidUdpLength)
      else if udpOffset + udpLength > |frame| then Err(TruncatedUdpPayload)
      else Ok(frame[udpOffset + UDP_HEADER_LENGTH..udpOffset + udpLength])
  }

  /** What a frame's packet is, byte by byte, or the first header that is not IPv4 with UDP. */
  lemma UdpPayloadExactly(f: ByteString)
    requires WellFramed(f)
    ensures |f| >= 42
    ensures var udp := 14 + 4 * (f[14] % 16) as nat;
      && udp + 8 <= |f|
      && var udpLength := 0x100 * f[udp + 4] as nat + f[udp + 5] as nat;
         UdpPayload(f)
         == if f[12] != 0x08 || f[13] != 0x00 then Err(NotIpv4EtherType)
            else if f[14] / 16 != 4 then Err(NotIpv4)
            else if f[23] != 17 then Err(NotUdp)
            else if udpLength < 8 then Err(InvalidUdpLength)
            else if udp + udpLength > |f| then Err(TruncatedUdpPayload)
            else Ok(f[udp + 8..udp + udpLength])
  {
    hide Field;
    BigEndian(f, 12);
    BigEndian(f, 14 + 4 * (f[14] % 16) + 4);
  }

  /** The messages of one frame. */
  function FrameMessages(frame: ByteString, frameIndex: nat): Output<Recovered>
    requires WellFramed(frame)
  {
    match UdpPayload(frame)
    case Err(error) => Output([], Some(error))
    case Ok(packet) => MoldMessages(packet, frameIndex)
  }

  /** The messages of a stream: each frame is taken apart before the next is looked at. */
  function RecoverFrom(data: ByteString, frameIndex: nat): Output<Recovered>
    decreases |data|
  {
    if data == [] then Output([], None)
    else match FirstFrame(data)
      case Err(error) => Output([], Some(error))
      case Ok(length) =>
        FirstFrameWellFramed(data);
        var here := FrameMessages(data[..length], frameIndex);
        if here.error.Some? then here
        else
          var rest := RecoverFrom(data[length..], frameIndex + 1);
          Output(here.items + rest.items, rest.error)
  }

  // ----- a built frame

  lemma FrameOffsets(packet: ByteString, srcPort: nat, dstPort: nat)
    requires LengthFits(|packet|) && Fits(srcPort, 2) && Fits(dstPort, 2)
    ensures var parts := FrameParts(packet, srcPort, dstPort);
      && Offset(parts, 1) == 6 && Offset(parts, 2) == 12 && Offset(parts, 3) == 14 && Offset(parts, 4) == 16
      && Offset(parts, 5) == 18 && Offset(parts, 6) == 20 && Offset(parts, 7) == 22 && Offset(parts, 8) == 24
      && Offset(parts, 9) == 26 && Offset(parts, 10) == 30 && Offset(parts, 11) == 34 && Offset(parts, 12) == 36
      && Offset(parts, 13) == 38 && Offset(parts, 14) == 40 && Offset(parts, 15) == 42
  {
    hide Uint, Fits;
    var parts := FrameParts(packet, srcPort, dstPort);
    assert Offset(parts, 1) == 6;
    assert Offset(parts, 2) == 12;
    assert Offset(parts, 3) == 14;
    assert Offset(parts, 4) == 16;
    assert Offset(parts, 5) == 18;
    assert Offset(parts, 6) == 20;
    assert Offset(parts, 7) == 22;
    assert Offset(parts, 8) == 24;
    assert Offset(parts, 9) == 26;
    assert Offset(parts, 10) == 30;
    assert Offset(parts, 11) == 34;
    assert Offset(parts, 12) == 36;
    assert Offset(parts, 13) == 38;
    assert Offset(parts, 14) == 40;
  }

  /** The fields a receiver looks at, as they stand in a built frame. */
  lemma BuiltFields(packet: ByteString, srcPort: nat, dstPort: nat)
    requires LengthFits(|packet|) && Fits(srcPort, 2) && Fits(dstPort, 2)
    ensures var f := WireFrame(packet, srcPort, dstPort);
      && |f| == 42 + |packet| && f[42..] == packet
      && U16(f, 12) == ETHERTYPE_IPV4 && f[14] == 0x45 && f[23] == IP_PROTOCOL_UDP
      && U16(f, 16) == 28 + |packet| && U16(f, 38) == 8 + |packet|
  {
    hide Uint, Join, Offset, Fits, FromBytes;
    var parts, f := FrameParts(packet, srcPort, dstPort), WireFrame(packet, srcPort, dstPort);
    FrameOffsets(packet, srcPort, dstPort);
    BuiltWords(packet, srcPort, dstPort);
    PartAt(parts, 3);
    assert Slice(f, 14, 16) == [0x45, 0x00];
    PartAt(parts, 7);
    assert Slice(f, 22, 24) == [64, IP_PROTOCOL_UDP];
    JoinLength(parts);
    assert Offset(parts, 16) == Offset(parts, 15) + |parts[15]| by { NextOffset(parts, 15); }
    PartAt(parts, 15);
    assert Slice(f, 42, 42 + |packet|) == packet;
    assert f[42..] == f[42..42 + |packet|];
    assert f[14..16][0] == f[14] && f[22..24][1] == f[23];
  }

  lemma NextOffset(parts: seq<ByteString>, k: nat)
    requires k < |parts|
    ensures Offset(parts, k + 1) == Offset(parts, k) + |parts[k]|
  {
  }

  lemma BuiltWords(packet: ByteString, srcPort: nat, dstPort: nat)
    requires LengthFits(|packet|) && Fits(srcPort, 2) && Fits(dstPort, 2)
    ensures var f := WireFrame(packet, srcPort, dstPort);
      && |f| >= 40
      && U16(f, 12) == ETHERTYPE_IPV4
      && U16(f, 16) == 28 + |packet|
      && U16(f, 38) == 8 + |packet|
  {
    hide Uint, Join, Offset, FromBytes;
    FieldWidths();
    var parts := FrameParts(packet, srcPort, dstPort);
    FrameOffsets(packet, srcPort, dstPort);
    FieldAt(parts, 2, ETHERTYPE_IPV4, 2);
    FieldAt(parts, 4, 28 + |packet|, 2);
    FieldAt(parts, 13, 8 + |packet|, 2);
  }

  /** Every byte of the forty-two before the packet, in numbers. */
  predicate HasHeaders(f: ByteString, srcPort: nat, dstPort: nat) {
    && |f| >= 42
    && f[..6] == [2, 0, 0, 0, 0, 2] && f[6..12] == [2, 0, 0, 0, 0, 1] && f[12..14] == [0x08, 0x00]
    && f[14..16] == [0x45, 0] && U16(f, 16) == |f| - 14 && f[18..22] == [0, 0, 0, 0]
    && f[22..24] == [64, 17] && f[24..26] == [0, 0]
    && f[26..30] == [10, 0, 0, 1] && f[30..34] == [10, 0, 0, 2]
    && U16(f, 34) == srcPort && U16(f, 36) == dstPort && U16(f, 38) == |f| - 34 && f[40..42] == [0, 0]
  }

  lemma BuiltHeaders(packet: ByteString, srcPort: nat, dstPort: nat)
    requires LengthFits(|packet|) && Fits(srcPort, 2) && Fits(dstPort, 2)
    ensures HasHeaders(WireFrame(packet, srcPort, dstPort), srcPort, dstPort)
  {
    hide Uint, Join, Offset, Fits, FromBytes;
    BuiltFields(packet, srcPort, dstPort);
    BuiltLinkLayer(packet, srcPort, dstPort);
    BuiltNetworkLayer(packet, srcPort, dstPort);
    BuiltTransportLayer(packet, srcPort, dstPort);
  }

  lemma BuiltLinkLayer(packet: ByteString, srcPort: nat, dstPort: nat)
    requires LengthFits(|packet|) && Fits(srcPort, 2) && Fits(dstPort, 2)
    ensures var f := WireFrame(packet, srcPort, dstPort);
      && |f| >= 42 && f[..6] == [2, 0, 0, 0, 0, 2] && f[6..12] == [2, 0, 0, 0, 0, 1] && f[12..14] == [0x08, 0x00]
  {
    hide Join, FromBytes, WireFrame;
    BuiltFields(packet, srcPort, dstPort);
    PartSlice(packet, srcPort, dstPort, 0, 0, 6);
    PartSlice(packet, srcPort, dstPort, 1, 6, 12);
    PartSlice(packet, srcPort, dstPort, 2, 12, 14);
  }

  /** A part of a built frame, sliced out of it. */
  lemma PartSlice(packet: ByteString, srcPort: nat, dstPort: nat, k: nat, lo: nat, hi: nat)
    requires LengthFits(|packet|) && Fits(srcPort, 2) && Fits(dstPort, 2)
    requires k < 15 && lo < hi && lo == Offset(FrameParts(packet, srcPort, dstPort), k)
    requires hi == lo + |FrameParts(packet, srcPort, dstPort)[k]|
    ensures hi <= |WireFrame(packet, srcPort, dstPort)|
    ensures WireFrame(packet, srcPort, dstPort)[lo..hi] == FrameParts(packet, srcPort, dstPort)[k]
  {
    hide Join, Offset, Uint, Fits;
    PartAt(FrameParts(packet, srcPort, dstPort), k);
  }

  lemma BuiltNetworkLayer(packet: ByteString, srcPort: nat, dstPort: nat)
    requires LengthFits(|packet|) && Fits(srcPort, 2) && Fits(dstPort, 2)
    ensures var f := WireFrame(packet, srcPort, dstPort);
      && |f| >= 42 && f[14..16] == [0x45, 0] && f[18..22] == [0, 0, 0, 0]
      && f[22..24] == [64, 17] && f[24..26] == [0, 0] && f[26..30] == [10, 0, 0, 1] && f[30..34] == [10, 0, 0, 2]
  {
    hide Join, FromBytes, WireFrame, Offset;
    BuiltFields(packet, srcPort, dstPort);
    FrameOffsets(packet, srcPort, dstPort);
    PartSlice(packet, srcPort, dstPort, 3, 14, 16);
    PartSlice(packet, srcPort, dstPort, 5, 18, 20);
    PartSlice(packet, srcPort, dstPort, 6, 20, 22);
    PartSlice(packet, srcPort, dstPort, 7, 22, 24);
    PartSlice(packet, srcPort, dstPort, 8, 24, 26);
    PartSlice(packet, srcPort, dstPort, 9, 26, 30);
    PartSlice(packet, srcPort, dstPort, 10, 30, 34);
    ZeroWord();
    var f := WireFrame(packet, srcPort, dstPort);
    assert f[18..22] == f[18..20] + f[20..22];
  }

  lemma ZeroWord()
    ensures Fits(0, 2) && Uint(0, 2) == [0, 0]
  {
  }

  lemma BuiltTransportLayer(packet: ByteString, srcPort: nat, dstPort: nat)
    requires LengthFits(|packet|) && Fits(srcPort, 2) && Fits(dstPort, 2)
    ensures var f := WireFrame(packet, srcPort, dstPort);
      |f| >= 42 && U16(f, 34) == srcPort && U16(f, 36) == dstPort && f[40..42] == [0, 0]
  {
    hide Uint, Join, Offset, FromBytes, Fits;
    BuiltFields(packet, srcPort, dstPort);
    FrameOffsets(packet, srcPort, dstPort);
    var parts := FrameParts(packet, srcPort, dstPort);
    FieldAt(parts, 11, srcPort, 2);
    FieldAt(parts, 12, dstPort, 2);
    ZeroWord();
    assert |parts[14]| == 2;
    PartSlice(packet, srcPort, dstPort, 14, 40, 42);
  }

  /** A built frame is well formed, and its packet can be taken out again. */
  lemma BuiltFrame(packet: ByteString, srcPort: nat, dstPort: nat)
    requires LengthFits(|packet|) && Fits(srcPort, 2) && Fits(dstPort, 2)
    ensures var f := WireFrame(packet, srcPort, dstPort);
      WellFramed(f) && UdpPayload(f) == Ok(packet)
  {
    hide WireFrame, Fits, U16;
    BuiltFields(packet, srcPort, dstPort);
    var f := WireFrame(packet, srcPort, dstPort);
    assert f[42..42 + |packet|] == f[42..];
  }

  lemma FirstFrameThen(frame: ByteString, rest: ByteString)
    requires WellFramed(frame)
    ensures FirstFrame(frame + rest) == Ok(|frame|)
    ensures (frame + rest)[..|frame|] == frame && (frame + rest)[|frame|..] == rest
  {
    SliceOfPrefix(frame, rest, 16, 18);
  }
}
