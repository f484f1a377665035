/** The echo packets of a ping round: what is sent, and which datagrams answer it. */
module PingPacket {
  import opened Wrappers
  import opened Bytes
  import opened InternetChecksum

  const ICMP_MAGIC: u32 := 0x5A44_3132
  const ECHO: byte := 8
  const ECHO_REPLY: byte := 0
  const PACKET_SIZE := 16
  const IP_HEADER_SIZE := 20

  /** Type, code and an empty checksum; identifier and sequence; magic and index. */
  function Unsealed(identifier: u16, index: u32): (packet: seq<byte>)
    ensures |packet| == PACKET_SIZE
  {
    [ECHO, 0, 0, 0] + Be16(identifier) + Be16((index + 1) % U16) + Be32(ICMP_MAGIC) + Be32(index)
  }

  /** The packet with the checksum of RFC 1071 in network byte order. */
  function Request(identifier: u16, index: u32): (packet: seq<byte>)
    ensures |packet| == PACKET_SIZE
  {
    var packet := Unsealed(identifier, index);
    Splice(packet, 2, Be16(Complement(OnesValue(WordSum(packet)))))
  }

  /** What a request holds: an echo request, then a checksum that makes all words add up to
      ones, the identifier, the sequence number, "ZD12" and the index. */
  lemma RequestExactly(identifier: u16, index: u32)
    ensures var packet := Request(identifier, index);
            && packet[..2] == [8, 0] && OnesValue(WordSum(packet)) == 0xFFFF
            && packet[4..6] == Be16(identifier) && packet[6..8] == Be16((index + 1) % 0x1_0000)
            && packet[8..12] == [0x5A, 0x44, 0x31, 0x32] && packet[12..] == Be32(index)
  {
    hide WordSum, OnesValue, Be16, Be32, Complement;
    var fields, packet := Unsealed(identifier, index), Request(identifier, index);
    var v := OnesValue(WordSum(fields));
    UnsealedFields(identifier, index);
    MagicText();
    assert packet[..2] == fields[..2] && packet[2..4] == Be16(Complement(v)) && packet[4..] == fields[4..];
    assert packet[4..6] == fields[4..6] && packet[6..8] == fields[6..8] && packet[8..12] == fields[8..12];
    assert packet[12..] == fields[12..16];
    SealedSum(fields, packet, Complement(v));
    OnesAddUp(WordSum(fields));
  }

  lemma MagicText()
    ensures Be32(ICMP_MAGIC) == [0x5A, 0x44, 0x31, 0x32]
  {
  }

  /** A value and its complement add up to ones. */
  lemma OnesAddUp(sum: nat)
    ensures OnesValue(sum + Complement(OnesValue(sum))) == 0xFFFF
  {
    var v := OnesValue(sum);
    var q := if sum == 0 then 0 else (sum - 1) / 0xFFFF;
    assert sum == v + 0xFFFF * q;
    OnesValueUnique(sum + Complement(v), 0xFFFF, q);
  }

  /** Filling in a field adds its value to the word sum. */
  lemma SealedSum(fields: seq<byte>, packet: seq<byte>, checksum: u16)
    requires |fields| == |packet| == 16 && fields[2] == fields[3] == 0
    requires packet[..2] == fields[..2] && packet[2..4] == Be16(checksum) && packet[4..] == fields[4..]
    ensures WordSum(packet) == WordSum(fields) + checksum
  {
    Words(fields);
    Words(packet);
    assert packet[2] == packet[2..4][0] && packet[3] == packet[2..4][1];
    assert forall k :: 4 <= k < 16 ==> packet[k] == packet[4..][k - 4] && fields[k] == fields[4..][k - 4];
    assert packet[0] == packet[..2][0] && packet[1] == packet[..2][1];
  }

  lemma Words(data: seq<byte>)
    requires |data| == 16
    ensures WordSum(data) ==
            ReadBe16(data, 0) + ReadBe16(data, 2) + ReadBe16(data, 4) + ReadBe16(data, 6)
            + ReadBe16(data, 8) + ReadBe16(data, 10) + ReadBe16(data, 12) + ReadBe16(data, 14)
  {
    hide WordSum, ReadBe16;
    EmptySums();
    WordSumTo(data, 1);
    WordSumTo(data, 2);
    WordSumTo(data, 3);
    WordSumTo(data, 4);
    WordSumTo(data, 5);
    WordSumTo(data, 6);
    WordSumTo(data, 7);
    WordSumTo(data, 8);
    assert data[..0] == [] && data[..16] == data;
  }

  lemma WordSumTo(data: seq<byte>, k: nat)
    requires 0 < k && 2 * k <= |data|
    ensures WordSum(data[..2 * k]) == WordSum(data[..2 * k - 2]) + ReadBe16(data, 2 * k - 2)
  {
    assert data[..2 * k][..2 * k - 2] == data[..2 * k - 2];
  }

  /** The collector sums little-endian words in 32 bits and stores the result in its
      own byte order; for a packet no carry is lost, so this is the standard checksum. */
  method BuildRequest(identifier: u16, index: u32) returns (packet: seq<byte>)
    ensures packet == Request(identifier, index)
  {
    var unsealed := Unsealed(identifier, index);
    SameBytesWhenShort(unsealed);
    var checksum := IcmpChecksum(unsealed);
    packet := Splice(unsealed, 2, Le16(checksum));
  }

  lemma MagicBytes(datagram: seq<byte>, at: int)
    requires 0 <= at && at + 4 <= |datagram|
    ensures ReadBe32(datagram, at) == ICMP_MAGIC <==> datagram[at..at + 4] == [0x5A, 0x44, 0x31, 0x32]
  {
    Be32Injective(datagram, at);
    assert Be32(ICMP_MAGIC) == [0x5A, 0x44, 0x31, 0x32];
    if datagram[at..at + 4] == [0x5A, 0x44, 0x31, 0x32] {
      Be32RoundTrip(datagram, at, ICMP_MAGIC);
    }
  }

  /** Where the ICMP packet starts, from the header length in the low nibble. */
  function PacketOffset(datagram: seq<byte>): nat
    requires datagram != []
  {
    datagram[0] % 16 * 4
  }

  /** The tests a datagram must pass before its index is looked at. */
  predicate OwnReply(datagram: seq<byte>, identifier: u16) {
    && |datagram| >= IP_HEADER_SIZE + PACKET_SIZE
    && var offset := PacketOffset(datagram);
       && offset + PACKET_SIZE <= |datagram|
       && datagram[offset] == ECHO_REPLY
       && ReadBe16(datagram, offset + 4) == identifier
       && ReadBe32(datagram, offset + 8) == ICMP_MAGIC
  }

  /** Behind an IP header of as many words as the first byte's low nibble says: an echo
      reply with the round's identifier, the magic number and an index. */
  method ReadDatagram(datagram: seq<byte>, identifier: u16) returns (position: Option<u32>)
    ensures position.Some? <==> OwnReply(datagram, identifier)
    ensures position.Some? <==>
              && |datagram| >= 36 && var at := 4 * (datagram[0] as int % 16);
              && at + 16 <= |datagram| && datagram[at] == 0 && datagram[at + 4..at + 6] == Be16(identifier)
              && datagram[at + 8..at + 12] == [0x5A, 0x44, 0x31, 0x32]
    ensures position.Some? ==> var at := 4 * (datagram[0] as int % 16);
              datagram[at + 12..at + 16] == Be32(position.value)
  {
    position := None;
    if |datagram| >= IP_HEADER_SIZE + PACKET_SIZE {
      var offset := PacketOffset(datagram);
      if offset + PACKET_SIZE <= |datagram| {
        var index := ReadBe32(datagram, offset + 12);
        MagicBytes(datagram, offset + 8);
        Be32Injective(datagram, offset + 12);
        Be16Injective(datagram, offset + 4);
        if datagram[offset + 4..offset + 6] == Be16(identifier) { Be16RoundTrip(datagram, offset + 4, identifier); }
        if && datagram[offset] == ECHO_REPLY && ReadBe16(datagram, offset + 4) == identifier
           && ReadBe32(datagram, offset + 8) == ICMP_MAGIC {
          position := Some(index);
        }
      }
    }
  }

  /** An echo reply returns identifier, sequence and data of its request behind some IP
      header. It is recognized, names its request's index, and is nobody else's. */
  lemma ReplyIsRecognized(header: seq<byte>, checksum: seq<byte>, identifier: u16, index: u32,
                          rest: seq<byte>, other: u16)
    requires |header| >= IP_HEADER_SIZE && |header| == PacketOffset(header) && |checksum| == 2
    ensures var datagram := header + ([ECHO_REPLY, 0] + checksum + Request(identifier, index)[4..]) + rest;
            && (OwnReply(datagram, other) <==> other == identifier)
            && PacketOffset(datagram) + PACKET_SIZE <= |datagram|
            && ReadBe32(datagram, PacketOffset(datagram) + 12) == index
  {
    hide ReadBe16, ReadBe32, WordSum, OnesValue;
    var offset, fields := |header|, Unsealed(identifier, index);
    var datagram := header + ([ECHO_REPLY, 0] + checksum + Request(identifier, index)[4..]) + rest;
    assert Request(identifier, index)[4..] == fields[4..];
    assert datagram[0] == header[0] && datagram[offset] == ECHO_REPLY;
    UnsealedFields(identifier, index);
    assert forall k :: 4 <= k < 16 ==> datagram[offset + k] == fields[k];
    assert datagram[offset + 4..offset + 6] == fields[4..6];
    assert datagram[offset + 8..offset + 12] == fields[8..12];
    assert datagram[offset + 12..offset + 16] == fields[12..16];
    Be16RoundTrip(datagram, offset + 4, identifier);
    Be32RoundTrip(datagram, offset + 8, ICMP_MAGIC);
    Be32RoundTrip(datagram, offset + 12, index);
  }

  lemma UnsealedFields(identifier: u16, index: u32)
    ensures var fields := Unsealed(identifier, index);
            && fields[..4] == [8, 0, 0, 0] && fields[4..6] == Be16(identifier)
            && fields[6..8] == Be16((index + 1) % U16) && fields[8..12] == Be32(ICMP_MAGIC)
            && fields[12..16] == Be32(index)
  {
    hide Be16, Be32;
    var head, id, sequence := [ECHO, 0, 0, 0], Be16(identifier), Be16((index + 1) % U16);
    var magic, last := Be32(ICMP_MAGIC), Be32(index);
    assert Unsealed(identifier, index) == head + id + sequence + magic + last;
  }
}
