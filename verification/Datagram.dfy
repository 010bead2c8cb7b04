/** The fixed-format header of a DHCP message (section 2 of RFC 2131) around the option area:
    `DhcpDatagram::from_buffer` and `DhcpDatagram::to_byte_vector` of src/datagram.cpp. */
module DhcpDatagram {
  import opened Bytes
  import opened Options

  const OPCODE_OFFSET := 0
  const HWADDR_TYPE_OFFSET := 1
  const HWADDR_LENGTH_OFFSET := 2
  const TRANSACTION_ID_OFFSET := 4
  const SECS_PASSED_OFFSET := 8
  const FLAGS_OFFSET := 10
  const CLIENT_IP_OFFSET := 12
  const ASSIGNED_IP_OFFSET := 16
  const SERVER_IP_OFFSET := 20
  const RELAY_AGENT_IP_OFFSET := 24
  const CLIENT_HWADDR_OFFSET := 28
  const SERVER_HOSTNAME_OFFSET := 44
  const MAGIC_COOKIE_OFFSET := 236
  const OPTIONS_OFFSET := 240

  const DHCP_MAGIC_COOKIE: uint32 := 0x63825363

  /** The 16-byte client hardware address field. */
  type HwAddr = s: seq<byte> | |s| == 16 witness seq(16, i => 0)

  datatype Datagram = Datagram(
    opcode: byte, hwType: byte, hwLen: byte,
    xid: uint32, secs: uint16, flags: uint16,
    clientIp: uint32, assignedIp: uint32, serverIp: uint32, relayIp: uint32,
    recvAddr: uint32,
    hwAddr: HwAddr,
    options: OptionMap)

  /** Fields of a decoded datagram that `from_buffer` never assigns: the last hardware address
      byte (15 of 16 are copied), the relay address and the receiving address. */
  datatype Residue = Residue(hwTail: byte, relayIp: uint32, recvAddr: uint32)

  /** `Invalid` is the `invalid_argument` of the option parser. */
  datatype Decoded = Received(datagram: Datagram) | Invalid | ReadsPastBuffer

  function Word(buf: seq<byte>, offset: nat): uint32
    requires offset + 4 <= |buf|
  {
    WordOfBytes(buf[offset..offset + 4]);
    FromBigEndian(buf[offset..offset + 4])
  }

  function HalfWord(buf: seq<byte>, offset: nat): uint16
    requires offset + 2 <= |buf|
  {
    WordOfBytes(buf[offset..offset + 2]);
    FromBigEndian(buf[offset..offset + 2])
  }

  function NetWord(e: Endian, buf: seq<byte>, offset: nat): uint32
    requires offset + 4 <= |buf|
  {
    NetworkWordFits(e, buf[offset..offset + 4]);
    FromNetworkBytes(e, buf[offset..offset + 4])
  }

  function NetHalfWord(e: Endian, buf: seq<byte>, offset: nat): uint16
    requires offset + 2 <= |buf|
  {
    NetworkWordFits(e, buf[offset..offset + 2]);
    FromNetworkBytes(e, buf[offset..offset + 2])
  }

  /** The header part of a decoded buffer; a wrong magic cookie is only logged. */
  function DecodeHeader(e: Endian, buf: seq<byte>, residue: Residue, options: OptionMap): Datagram
    requires |buf| >= OPTIONS_OFFSET
  {
    Datagram(
      buf[OPCODE_OFFSET], buf[HWADDR_TYPE_OFFSET], buf[HWADDR_LENGTH_OFFSET],
      NetWord(e, buf, TRANSACTION_ID_OFFSET), NetHalfWord(e, buf, SECS_PASSED_OFFSET), HalfWord(buf, FLAGS_OFFSET),
      Word(buf, CLIENT_IP_OFFSET), Word(buf, ASSIGNED_IP_OFFSET), Word(buf, SERVER_IP_OFFSET), residue.relayIp,
      residue.recvAddr,
      buf[CLIENT_HWADDR_OFFSET..SERVER_HOSTNAME_OFFSET - 1] + [residue.hwTail],
      options)
  }

  function Decode(e: Endian, buf: seq<byte>, residue: Residue): Decoded
    requires |buf| >= OPTIONS_OFFSET
  {
    match ParseArea(buf[OPTIONS_OFFSET..])
    case Parsed(options) => Received(DecodeHeader(e, buf, residue, options))
    case BadLength(_) => Invalid
    case Overrun => ReadsPastBuffer
  }

  /** `from_buffer`: fields are read off the buffer one by one. */
  method FromBuffer(e: Endian, buf: seq<byte>, residue: Residue) returns (r: Decoded)
    requires |buf| >= OPTIONS_OFFSET
    ensures r == Decode(e, buf, residue)
  {
    var xidRead := ToNumber(buf[TRANSACTION_ID_OFFSET..TRANSACTION_ID_OFFSET + 4], 4);
    var secsRead := ToNumber(buf[SECS_PASSED_OFFSET..SECS_PASSED_OFFSET + 2], 2);
    var flags := ToNumber(buf[FLAGS_OFFSET..FLAGS_OFFSET + 2], 2);
    var clientIp := ToNumber(buf[CLIENT_IP_OFFSET..CLIENT_IP_OFFSET + 4], 4);
    var assignedIp := ToNumber(buf[ASSIGNED_IP_OFFSET..ASSIGNED_IP_OFFSET + 4], 4);
    var serverIp := ToNumber(buf[SERVER_IP_OFFSET..SERVER_IP_OFFSET + 4], 4);
    assert flags.value == HalfWord(buf, FLAGS_OFFSET);
    assert clientIp.value == Word(buf, CLIENT_IP_OFFSET);
    assert assignedIp.value == Word(buf, ASSIGNED_IP_OFFSET);
    assert serverIp.value == Word(buf, SERVER_IP_OFFSET);
    assert HostToNet(e, xidRead.value, 4) == NetWord(e, buf, TRANSACTION_ID_OFFSET);
    assert HostToNet(e, secsRead.value, 2) == NetHalfWord(e, buf, SECS_PASSED_OFFSET);
    var hwAddr: seq<byte> := buf[CLIENT_HWADDR_OFFSET..SERVER_HOSTNAME_OFFSET - 1] + [residue.hwTail];
    var parsed := ParseOptions(buf[OPTIONS_OFFSET..]);
    match parsed
    case Parsed(options) =>
      r := Received(Datagram(
        buf[OPCODE_OFFSET], buf[HWADDR_TYPE_OFFSET], buf[HWADDR_LENGTH_OFFSET],
        HostToNet(e, xidRead.value, 4), HostToNet(e, secsRead.value, 2), flags.value,
        clientIp.value, assignedIp.value, serverIp.value, residue.relayIp, residue.recvAddr, hwAddr, options));
    case BadLength(_) => r := Invalid;
    case Overrun => r := ReadsPastBuffer;
  }

  function EncodeHeader(e: Endian, d: Datagram): (s: seq<byte>)
    ensures |s| == OPTIONS_OFFSET
  {
    [d.opcode, d.hwType, d.hwLen, 0]
    + NetworkBytes(e, d.xid, 4) + NetworkBytes(e, d.secs, 2) + BigEndian(d.flags, 2)
    + BigEndian(d.clientIp, 4) + BigEndian(d.assignedIp, 4) + BigEndian(d.serverIp, 4) + BigEndian(d.relayIp, 4)
    + d.hwAddr + Zeros(192) + BigEndian(DHCP_MAGIC_COOKIE, 4)
  }

  function Zeros(n: nat): seq<byte> {
    seq(n, i => 0)
  }

  /** The wire form of `d` when its options are visited in the given order. */
  function Encode(e: Endian, d: Datagram, order: seq<Item>): seq<byte> {
    EncodeHeader(e, d) + Spell(order) + [OPTIONS_END]
  }

  /** `to_byte_vector`: everything is pushed onto one growing vector. `order` stands for the
      unspecified iteration order of the option map. */
  method ToByteVector(e: Endian, d: Datagram, order: seq<Item>) returns (bytes: seq<byte>)
    requires IsEnumeration(order, d.options)
    ensures bytes == Encode(e, d, order)
  {
    bytes := PushHeader(e, d);
    bytes := PushOptions(bytes, order);
    bytes := bytes + [OPTIONS_END];
  }

  method PushHeader(e: Endian, d: Datagram) returns (bytes: seq<byte>)
    ensures bytes == EncodeHeader(e, d)
  {
    bytes := [d.opcode];
    bytes := bytes + [d.hwType];
    bytes := bytes + [d.hwLen];
    bytes := bytes + [0]; // hops
    assert bytes == [d.opcode, d.hwType, d.hwLen, 0];
    bytes := PushNumber(bytes, HostToNet(e, d.xid, 4), 4);
    bytes := PushNumber(bytes, HostToNet(e, d.secs, 2), 2);
    bytes := PushNumber(bytes, d.flags, 2);
    bytes := PushNumber(bytes, d.clientIp, 4);
    bytes := PushNumber(bytes, d.assignedIp, 4);
    bytes := PushNumber(bytes, d.serverIp, 4);
    bytes := PushNumber(bytes, d.relayIp, 4);
    bytes := bytes + d.hwAddr;
    bytes := bytes + Zeros(192);
    bytes := PushNumber(bytes, DHCP_MAGIC_COOKIE, 4);
  }

  method PushOptions(vec: seq<byte>, order: seq<Item>) returns (bytes: seq<byte>)
    requires forall i :: 0 <= i < |order| ==> order[i].Opt?
    ensures bytes == vec + Spell(order)
  {
    bytes := vec;
    for i := 0 to |order|
      invariant bytes + Spell(order[i..]) == vec + Spell(order)
    {
      SpellRest(bytes, order, i);
      bytes := PushOption(bytes, order[i]);
    }
  }

  method PushOption(vec: seq<byte>, it: Item) returns (bytes: seq<byte>)
    requires it.Opt?
    ensures bytes == vec + SpellItem(it)
  {
    bytes := vec + [it.tag];
    bytes := bytes + [|it.value| % 0x100];
    bytes := bytes + it.value;
  }

  lemma SpellRest(bytes: seq<byte>, order: seq<Item>, i: nat)
    requires i < |order|
    ensures bytes + Spell(order[i..]) == bytes + SpellItem(order[i]) + Spell(order[i + 1..])
  {
    assert order[i..][1..] == order[i + 1..];
  }

  /** The magic cookie of section 3 of RFC 2131: the octets 99, 130, 83 and 99. */
  lemma CookieOctets()
    ensures BigEndian(DHCP_MAGIC_COOKIE, 4) == [99, 130, 83, 99]
  {
    assert BigEndian(0x63, 1) == BigEndian(0, 0) + [99];
    assert BigEndian(0x6382, 2) == BigEndian(0x63, 1) + [130];
    assert BigEndian(0x638253, 3) == BigEndian(0x6382, 2) + [83];
  }

  /** Every field sits at its offset, and nothing else is in the header: no hops, no server name, no
      boot file. */
  lemma FieldOffsets(e: Endian, d: Datagram)
    ensures var h := EncodeHeader(e, d);
            && h[0] == d.opcode
            && h[1] == d.hwType
            && h[2] == d.hwLen
            && h[3] == 0
            && h[4..8] == NetworkBytes(e, d.xid, 4)
            && h[8..10] == NetworkBytes(e, d.secs, 2)
            && h[10..12] == BigEndian(d.flags, 2)
            && h[12..16] == BigEndian(d.clientIp, 4)
            && h[16..20] == BigEndian(d.assignedIp, 4)
            && h[20..24] == BigEndian(d.serverIp, 4)
            && h[24..28] == BigEndian(d.relayIp, 4)
            && h[28..44] == d.hwAddr
            && h[44..236] == Zeros(192)
            && h[236..240] == [99, 130, 83, 99]
  {
    CookieOctets();
  }

  /** What `from_buffer` recovers of an encoded datagram: everything but the bytes it never reads. */
  function Recovered(d: Datagram, residue: Residue): Datagram {
    d.(hwAddr := d.hwAddr[..15] + [residue.hwTail], relayIp := residue.relayIp, recvAddr := residue.recvAddr)
  }

  lemma HeaderRoundTrip(e: Endian, d: Datagram, more: seq<byte>, residue: Residue)
    ensures DecodeHeader(e, EncodeHeader(e, d) + more, residue, d.options) == Recovered(d, residue)
  {
    var h := EncodeHeader(e, d);
    var buf := h + more;
    FieldOffsets(e, d);
    SlicesOfPrefix(h, more);
    WordBounds();
    NetworkRoundTrip(e, d.xid, 4);
    NetworkRoundTrip(e, d.secs, 2);
    Word16RoundTrip(d.flags);
    Word32RoundTrip(d.clientIp);
    Word32RoundTrip(d.assignedIp);
    Word32RoundTrip(d.serverIp);
    assert buf[CLIENT_HWADDR_OFFSET..SERVER_HOSTNAME_OFFSET - 1] == d.hwAddr[..15] by {
      assert h[CLIENT_HWADDR_OFFSET..SERVER_HOSTNAME_OFFSET][..15] == h[CLIENT_HWADDR_OFFSET..SERVER_HOSTNAME_OFFSET - 1];
    }
  }

  lemma SlicesOfPrefix(h: seq<byte>, more: seq<byte>)
    ensures forall i, j {:trigger (h + more)[i..j]} :: 0 <= i <= j <= |h| ==> (h + more)[i..j] == h[i..j]
  {
  }

  /** Encoding in any order, sending, and decoding with any bytes behind the END returns the same
      header fields and the same option map, exactly when every option is legal on the wire. */
  lemma DatagramRoundTrip(e: Endian, d: Datagram, order: seq<Item>, tail: seq<byte>, residue: Residue)
    requires IsEnumeration(order, d.options)
    ensures Decode(e, Encode(e, d, order) + tail, residue) == Received(Recovered(d, residue)) <==> Encodable(d.options)
  {
    var area := Spell(order) + [OPTIONS_END] + tail;
    assert Encode(e, d, order) + tail == EncodeHeader(e, d) + area;
    DecodeBehindHeader(e, d, area, residue);
    OptionsRoundTrip(d.options, order, tail);
  }

  lemma DecodeBehindHeader(e: Endian, d: Datagram, area: seq<byte>, residue: Residue)
    ensures Decode(e, EncodeHeader(e, d) + area, residue) == Received(Recovered(d, residue))
            <==> ParseArea(area) == Parsed(d.options)
  {
    var buf := EncodeHeader(e, d) + area;
    assert buf[OPTIONS_OFFSET..] == area;
    HeaderRoundTrip(e, d, area, residue);
  }

  /** So every datagram with legal options has an encoding that decodes to it. */
  lemma EncodingExists(e: Endian, d: Datagram, residue: Residue) returns (order: seq<Item>)
    requires Encodable(d.options)
    ensures IsEnumeration(order, d.options)
    ensures Decode(e, Encode(e, d, order), residue) == Received(Recovered(d, residue))
  {
    order := EnumerationExists(d.options);
    DatagramRoundTrip(e, d, order, [], residue);
    assert Encode(e, d, order) + [] == Encode(e, d, order);
  }

  /** Two receptions of the same bytes name the same client exactly when the uninitialised last
      byte of the address happens to be the same. */
  lemma SameBytesSameClient(e: Endian, buf: seq<byte>, r1: Residue, r2: Residue)
    requires |buf| >= OPTIONS_OFFSET && Decode(e, buf, r1).Received?
    ensures Decode(e, buf, r1).datagram.hwAddr == Decode(e, buf, r2).datagram.hwAddr <==> r1.hwTail == r2.hwTail
  {
    var h1, h2 := Decode(e, buf, r1).datagram.hwAddr, Decode(e, buf, r2).datagram.hwAddr;
    assert h1[15] == r1.hwTail && h2[15] == r2.hwTail;
  }
}
