/**
 The packet record on the wire: the three serializers, the deserializer and the nested
 relay encoding. `little` is the host's byte order; nothing depends on it in the end.
 */
module Wire {
  import opened Types
  import opened Crc

  const HEADER: nat := 21
  const UDP_MTU: nat := 1432
  const BUFFER: nat := 2048

  /** A protopack in memory; d_size is a field of its own here, in whatever order it was left. */
  datatype Struct = Struct(sn: u32, chsum: u32, dSize: u32, hFrom: u32, hTo: u32, ptype: byte, data: seq<byte>)

  function InMemory(p: Packet): Struct
    requires |p.data| < U32_LIMIT
  {
    Struct(p.sn, p.chsum, |p.data|, p.hFrom, p.hTo, p.ptype, p.data)
  }

  // ------------------------------------------------------------- byte order

  function Big(x: u32): (b: seq<byte>)
    ensures |b| == 4
  {
    var hi, lo := x / 0x1_0000, x % 0x1_0000;
    [hi / 256, hi % 256, lo / 256, lo % 256]
  }

  function FromBig(b: seq<byte>): u32
    requires |b| == 4
  {
    (b[0] as int * 256 + b[1]) * 0x1_0000 + (b[2] as int * 256 + b[3])
  }

  function Mirror(b: seq<byte>): seq<byte>
    requires |b| == 4
  {
    [b[3], b[2], b[1], b[0]]
  }

  /** The bytes of a 32-bit field in memory, and back. */
  function Host(x: u32, little: bool): (b: seq<byte>)
    ensures |b| == 4
  {
    if little then Mirror(Big(x)) else Big(x)
  }

  function FromHost(b: seq<byte>, little: bool): u32
    requires |b| == 4
  {
    FromBig(if little then Mirror(b) else b)
  }

  lemma HostBack(x: u32, little: bool)
    ensures FromHost(Host(x, little), little) == x
  {
    hide Big, FromBig;
    BigBack(x);
    assert Mirror(Mirror(Big(x))) == Big(x);
  }

  /** htonl and ntohl are the same function. */
  function Htonl(x: u32, little: bool): u32 {
    if little then FromBig(Mirror(Big(x))) else x
  }

  /** The most significant byte comes first. */
  lemma BigEndian(a: byte, b: byte, c: byte, d: byte)
    ensures Big(0x100_0000 * a + 0x1_0000 * b + 0x100 * c + d) == [a, b, c, d]
  {
    var x: u32 := 0x100_0000 * a + 0x1_0000 * b + 0x100 * c + d;
    assert x / 0x1_0000 == 0x100 * a + b && x % 0x1_0000 == 0x100 * c + d;
  }

  lemma BigBack(x: u32)
    ensures FromBig(Big(x)) == x
  {}

  lemma BigForth(b: seq<byte>)
    requires |b| == 4
    ensures Big(FromBig(b)) == b
  {}

  lemma NetworkOrder(x: u32, little: bool)
    ensures Host(Htonl(x, little), little) == Big(x)
    ensures Htonl(Htonl(x, little), little) == x
  {
    BigForth(Mirror(Big(x)));
    assert Mirror(Mirror(Big(x))) == Big(x);
    BigBack(x);
  }

  lemma FromNetworkOrder(b: seq<byte>, little: bool)
    requires |b| == 4
    ensures Htonl(FromHost(b, little), little) == FromBig(b)
  {
    if little {
      BigForth(Mirror(b));
      assert Mirror(Mirror(b)) == b;
    }
  }

  /** The checksum as the 32-bit integer the program stores. */
  function Sum32(data: seq<byte>): u32 { Word32(Checksum(data)) }

  function Byte3(c: bv32): byte { ((c >> 24) as bv8) as int }
  function Byte2(c: bv32): byte { (((c >> 16) & 0xFF) as bv8) as int }
  function Byte1(c: bv32): byte { (((c >> 8) & 0xFF) as bv8) as int }
  function Byte0(c: bv32): byte { ((c & 0xFF) as bv8) as int }

  function Word32(c: bv32): u32 { FromBig([Byte3(c), Byte2(c), Byte1(c), Byte0(c)]) }

  lemma Word32Injective(a: bv32, b: bv32)
    requires Word32(a) == Word32(b)
    ensures a == b
  {
    hide Byte3, Byte2, Byte1, Byte0, FromBig, Big;
    var x, y := [Byte3(a), Byte2(a), Byte1(a), Byte0(a)], [Byte3(b), Byte2(b), Byte1(b), Byte0(b)];
    BigForth(x);
    BigForth(y);
    assert x[0] == y[0] && x[1] == y[1] && x[2] == y[2] && x[3] == y[3];
    SameBytes(a, b);
  }

  lemma SameBytes(a: bv32, b: bv32)
    requires Byte3(a) == Byte3(b) && Byte2(a) == Byte2(b) && Byte1(a) == Byte1(b) && Byte0(a) == Byte0(b)
    ensures a == b
  {
    hide Byte3, Byte2, Byte1, Byte0;
    Same3(a, b);
    Same2(a, b);
    Same1(a, b);
    Same0(a, b);
    Join(a, b);
  }

  lemma Same3(a: bv32, b: bv32)
    requires Byte3(a) == Byte3(b)
    ensures (a >> 24) as bv8 == (b >> 24) as bv8
  {}

  lemma Same2(a: bv32, b: bv32)
    requires Byte2(a) == Byte2(b)
    ensures ((a >> 16) & 0xFF) as bv8 == ((b >> 16) & 0xFF) as bv8
  {}

  lemma Same1(a: bv32, b: bv32)
    requires Byte1(a) == Byte1(b)
    ensures ((a >> 8) & 0xFF) as bv8 == ((b >> 8) & 0xFF) as bv8
  {}

  lemma Same0(a: bv32, b: bv32)
    requires Byte0(a) == Byte0(b)
    ensures (a & 0xFF) as bv8 == (b & 0xFF) as bv8
  {}

  lemma Join(a: bv32, b: bv32)
    requires (a >> 24) as bv8 == (b >> 24) as bv8 && ((a >> 16) & 0xFF) as bv8 == ((b >> 16) & 0xFF) as bv8
    requires ((a >> 8) & 0xFF) as bv8 == ((b >> 8) & 0xFF) as bv8 && (a & 0xFF) as bv8 == (b & 0xFF) as bv8
    ensures a == b
  {}

  // ------------------------------------------------------------- the encoding

  /** The frame layout, with `c` in the checksum field. */
  function Frame(p: Packet, c: u32): (f: seq<byte>)
    requires |p.data| < U32_LIMIT
    ensures |f| == HEADER + |p.data|
  {
    Big(p.sn) + Big(c) + Big(|p.data|) + Big(p.hFrom) + Big(p.hTo) + [p.ptype] + p.data
  }

  function FrameSum(p: Packet): u32
    requires |p.data| < U32_LIMIT
  {
    Sum32(Frame(p, 0))
  }

  function Encode(p: Packet): (f: seq<byte>)
    requires |p.data| < U32_LIMIT
    ensures |f| == HEADER + |p.data|
  {
    Frame(p, FrameSum(p))
  }

  /** udp_make_pack. */
  function MakePack(sn: u32, from: u32, to: u32, ptype: byte, payload: seq<byte>): Option<Packet> {
    if HEADER + |payload| > UDP_MTU then None else Some(Packet(sn, 0, from, to, ptype, payload))
  }

  /** The bytes a memory copy of the record yields. */
  function Image(s: Struct, little: bool): (f: seq<byte>)
    ensures |f| == HEADER + |s.data|
  {
    Host(s.sn, little) + Host(s.chsum, little) + Host(s.dSize, little) + Host(s.hFrom, little)
      + Host(s.hTo, little) + [s.ptype] + s.data
  }

  /** Every field but the checksum turned to network order, the checksum cleared. */
  function Swapped(p: Packet, little: bool): Struct
    requires |p.data| < U32_LIMIT
  {
    Struct(Htonl(p.sn, little), 0, Htonl(|p.data|, little), Htonl(p.hFrom, little), Htonl(p.hTo, little),
           p.ptype, p.data)
  }

  lemma ImageIsFrame(p: Packet, c: u32, little: bool)
    requires |p.data| < U32_LIMIT
    ensures Image(Swapped(p, little).(chsum := Htonl(c, little)), little) == Frame(p, c)
    ensures Image(Swapped(p, little), little) == Frame(p, 0)
  {
    hide Host, Htonl, Big;
    NetworkOrder(p.sn, little);
    NetworkOrder(c, little);
    NetworkOrder(|p.data|, little);
    NetworkOrder(p.hFrom, little);
    NetworkOrder(p.hTo, little);
    ZeroOrder(little);
  }

  lemma ZeroOrder(little: bool)
    ensures Host(0, little) == Big(0) == [0, 0, 0, 0] && Htonl(0, little) == 0
  {}

  // -------------------------------------------------------- the three serializers

  /** retranslate_udp followed by protopack_send: the checksum is written into the record. */
  method RetranslateAndSend(p: Packet, little: bool) returns (raw: seq<byte>)
    requires HEADER + |p.data| <= BUFFER
    ensures raw == Encode(p)
  {
    hide Host, Htonl, Big, FromBig, Checksum, Word32;
    var out := Swapped(p, little);
    ImageIsFrame(p, 0, little);
    var c := Crc32(Image(out, little));
    out := out.(chsum := Htonl(Word32(c), little));
    ImageIsFrame(p, Word32(c), little);
    NetworkOrder(|p.data|, little);
    var total := HEADER + Htonl(out.dSize, little);
    raw := Image(out, little)[..total];
  }

  /** memcpy into the front of a send buffer. */
  method CopyIn(buf: array<byte>, at: nat, src: seq<byte>)
    requires at + |src| <= buf.Length
    modifies buf
    ensures buf[..] == old(buf[..at]) + src + old(buf[at + |src|..])
  {
    ghost var was := buf[..];
    for i := 0 to |src|
      invariant forall j | 0 <= j < buf.Length ::
                  buf[j] == if at <= j < at + i then src[j - at] else was[j]
    {
      buf[at + i] := src[i];
    }
    assert buf[..] == was[..at] + src + was[at + |src|..];
  }

  /** pvd_sender_worker: the record is copied out first and the checksum patched into the buffer. */
  method WorkerSerialize(p: Packet, little: bool) returns (out: Option<seq<byte>>)
    requires |p.data| < U32_LIMIT
    ensures out == if HEADER + |p.data| > BUFFER then None else Some(Encode(p))
  {
    hide Host, Htonl, Big, FromBig, Checksum, Word32;
    var total := HEADER + |p.data|;
    if total > BUFFER {
      return None;
    }
    var buf := new byte[BUFFER](_ => 0);
    var pkt := Swapped(p, little);
    ImageIsFrame(p, 0, little);
    CopyIn(buf, 0, Image(pkt, little));
    assert buf[..total] == Frame(p, 0);
    var c := Crc32(buf[..total]);
    NetworkOrder(Word32(c), little);
    ghost var was := buf[..];
    CopyIn(buf, 4, Host(Htonl(Word32(c), little), little));
    Patched(was, buf[..], Big(Word32(c)), total);
    PatchSum(p, Word32(c), buf[..]);
    return Some(buf[..total]);
  }

  lemma Patched(was: seq<byte>, buf: seq<byte>, w: seq<byte>, n: nat)
    requires |w| == 4 && 8 <= n <= |was| && buf == was[..4] + w + was[8..]
    ensures |buf| == |was| && buf[..4] == was[..n][..4] && buf[4..8] == w && buf[8..n] == was[..n][8..]
  {}

  lemma PatchSum(p: Packet, c: u32, buf: seq<byte>)
    requires |p.data| < U32_LIMIT && |buf| >= HEADER + |p.data|
    requires buf[..4] == Frame(p, 0)[..4] && buf[4..8] == Big(c)
    requires buf[8..HEADER + |p.data|] == Frame(p, 0)[8..]
    ensures buf[..HEADER + |p.data|] == Frame(p, c)
  {
    hide Big;
    var f, g, n := Frame(p, 0), Frame(p, c), HEADER + |p.data|;
    assert g[..4] == f[..4] && g[4..8] == Big(c) && g[8..] == f[8..];
    assert g == g[..4] + g[4..8] + g[8..];
    assert buf[..n] == buf[..4] + buf[4..8] + buf[8..n];
  }

  /**
   _pvd_sender_low_send; with `noConversion` the record is already in network order. `copied` is
   how many payload bytes the copy made first reads: as many as the size field says as it stands.
   */
  method LowSend(s: Struct, noConversion: bool, little: bool) returns (out: Option<seq<byte>>, copied: nat)
    requires if noConversion then Htonl(s.dSize, little) == |s.data| else s.dSize == |s.data|
    requires noConversion ==> HEADER + |s.data| <= BUFFER
    ensures copied == s.dSize
    ensures noConversion ==> out == Some(Image(s, little))
    ensures !noConversion ==> out == if HEADER + |s.data| > BUFFER then None
                                     else Some(Encode(Packet(s.sn, s.chsum, s.hFrom, s.hTo, s.ptype, s.data)))
  {
    hide Htonl, Host, Encode;
    copied := s.dSize;
    if noConversion {
      var sz := HEADER + Htonl(s.dSize, little);
      assert Image(s, little)[..sz] == Image(s, little);
      return Some(Image(s, little)[..sz]), copied;
    }
    out := WorkerSerialize(Packet(s.sn, s.chsum, s.hFrom, s.hTo, s.ptype, s.data), little);
  }

  /**
   In network order the size field is within the payload only on a big-endian host, or for an
   empty payload, so the first copy of LowSend's unconverted path stays inside exactly there.
   */
  lemma SwappedSizeFits(n: nat, little: bool)
    requires n <= UDP_MTU - HEADER
    ensures Htonl(n, little) <= n <==> !little || n == 0
  {
    if little {
      assert Mirror(Big(n)) == [n % 256, n / 256, 0, 0];
      assert Htonl(n, little) == (n % 256 * 256 + n / 256) * 0x1_0000;
    }
  }

  /** udp_copy_pack: as many payload bytes as the size field says, wherever the payload ends. */
  function CopyPack(s: Struct, beyond: seq<byte>): Struct
    requires s.dSize <= |s.data| + |beyond|
  {
    s.(data := (s.data + beyond)[..s.dSize])
  }

  /** The copy of a record whose size field is right is that record. */
  lemma CopyIsFaithful(s: Struct, beyond: seq<byte>)
    requires s.dSize == |s.data|
    ensures CopyPack(s, beyond) == s
  {}

  /** The copy is made of the record alone exactly when the size field does not exceed the payload. */
  lemma CopyStaysInside(s: Struct)
    ensures s.dSize <= |s.data| <==>
      forall x: seq<byte>, y: seq<byte> | |x| == |y| == s.dSize :: CopyPack(s, x) == CopyPack(s, y)
  {
    if s.dSize <= |s.data| {
      forall x: seq<byte>, y: seq<byte> | |x| == |y| == s.dSize ensures CopyPack(s, x) == CopyPack(s, y) {
        assert (s.data + x)[..s.dSize] == s.data[..s.dSize] == (s.data + y)[..s.dSize];
      }
    } else {
      var x: seq<byte>, y: seq<byte> := seq(s.dSize, _ => 0), seq(s.dSize, _ => 1);
      assert CopyPack(s, x).data[|s.data|] == 0 && CopyPack(s, y).data[|s.data|] == 1;
    }
  }

  // ------------------------------------------------------------- the decoding

  function Cleared(raw: seq<byte>): (r: seq<byte>)
    requires |raw| >= HEADER
    ensures |r| == |raw|
  {
    raw[..4] + [0, 0, 0, 0] + raw[8..]
  }

  function Field(raw: seq<byte>, at: nat, little: bool): u32
    requires at + 4 <= |raw|
  {
    Htonl(FromHost(raw[at..at + 4], little), little)
  }

  /** protopack_recv: None stands for the NULL result. */
  function Decode(raw: seq<byte>, little: bool): Option<Struct> {
    if |raw| >= BUFFER || |raw| < HEADER then None
    else if Field(raw, 4, little) != Sum32(Cleared(raw)) then None
    else Some(Struct(Field(raw, 0, little), Htonl(Field(raw, 4, little), little), Field(raw, 8, little),
                     Field(raw, 12, little), Field(raw, 16, little), raw[20], raw[21..]))
  }

  method ProtopackRecv(raw: array<byte>, size: nat, little: bool) returns (r: Option<Struct>)
    requires size <= raw.Length
    modifies raw
    ensures r == Decode(old(raw[..size]), little)
  {
    hide Host, Htonl, Big, FromBig, FromHost, Checksum, Word32;
    if size >= BUFFER {
      return None;
    }
    if size < HEADER {
      return None;
    }
    ghost var was := raw[..size];
    assert raw[4..8] == was[4..8];
    var received := Htonl(FromHost(raw[4..8], little), little);
    CopyIn(raw, 4, [0, 0, 0, 0]);
    assert raw[..size] == Cleared(was);
    var calculated := Crc32(raw[..size]);
    if received != Word32(calculated) {
      return None;
    }
    var c := raw[..size];
    assert c[0..4] == was[0..4] && c[8..12] == was[8..12] && c[12..16] == was[12..16];
    assert c[16..20] == was[16..20] && c[20] == was[20] && c[21..] == was[21..];
    return Some(Struct(Htonl(FromHost(c[0..4], little), little), Htonl(received, little),
                       Htonl(FromHost(c[8..12], little), little), Htonl(FromHost(c[12..16], little), little),
                       Htonl(FromHost(c[16..20], little), little), c[20], c[21..]));
  }

  // --------------------------------------------------------------- the theorems

  lemma FieldOfBig(raw: seq<byte>, at: nat, x: u32, little: bool)
    requires at + 4 <= |raw| && raw[at..at + 4] == Big(x)
    ensures Field(raw, at, little) == x
  {
    hide Big, FromBig, Htonl, FromHost;
    FromNetworkOrder(raw[at..at + 4], little);
    BigBack(x);
  }

  lemma FrameFields(p: Packet, c: u32)
    requires |p.data| < U32_LIMIT
    ensures var f := Frame(p, c);
            && f[0..4] == Big(p.sn) && f[4..8] == Big(c) && f[8..12] == Big(|p.data|)
            && f[12..16] == Big(p.hFrom) && f[16..20] == Big(p.hTo) && f[20] == p.ptype && f[21..] == p.data
            && Cleared(f) == Frame(p, 0)
  {
    hide Big;
    ZeroOrder(false);
  }

  /**
   Round trip: every frame that fits a receive buffer decodes, on a host of either byte
   order, to the packet it was made from; only the checksum field differs.
   */
  lemma RoundTrip(p: Packet, little: bool)
    requires HEADER + |p.data| < BUFFER
    ensures Decode(Encode(p), little) == Some(InMemory(p).(chsum := Htonl(FrameSum(p), little)))
  {
    hide Big, FromBig, Htonl, FromHost, Field, Checksum, Word32, Frame;
    var f := Encode(p);
    FrameFields(p, FrameSum(p));
    FieldOfBig(f, 0, p.sn, little);
    FieldOfBig(f, 4, FrameSum(p), little);
    FieldOfBig(f, 8, |p.data|, little);
    FieldOfBig(f, 12, p.hFrom, little);
    FieldOfBig(f, 16, p.hTo, little);
  }

  /** Packing, encoding and decoding gives back every argument, for every payload that fits a datagram. */
  lemma MadePackDecodes(sn: u32, from: u32, to: u32, ptype: byte, payload: seq<byte>, little: bool)
    ensures var p := MakePack(sn, from, to, ptype, payload);
            && (p.Some? <==> |payload| <= 1411)
            && (p.Some? ==>
                  && var d := Decode(Encode(p.value), little);
                  && d.Some? && d.value.sn == sn && d.value.hFrom == from && d.value.hTo == to
                  && d.value.ptype == ptype && d.value.data == payload && d.value.dSize == |payload|)
  {
    hide Encode, Decode, Htonl, FrameSum;
    if |payload| <= 1411 {
      RoundTrip(MakePack(sn, from, to, ptype, payload).value, little);
    }
  }

  /** proto_msg_relay: a whole encoded packet carried as the payload of another. */
  method Relay(og: Packet, to: u32, relay: u32, little: bool) returns (out: Option<Packet>)
    requires HEADER + |og.data| <= BUFFER
    ensures out == MakePack(0, relay, to, PACK_NULL, Encode(og))
  {
    var buf := RetranslateAndSend(og, little);
    out := MakePack(0, relay, to, PACK_NULL, buf);
  }

  /** A relayed packet exists exactly up to 1390 payload bytes, and decoding twice restores the original. */
  lemma RelayDecodesTwice(og: Packet, to: u32, relay: u32, little: bool, little': bool)
    requires HEADER + |og.data| <= BUFFER
    ensures var out := MakePack(0, relay, to, PACK_NULL, Encode(og));
            && (out.Some? <==> |og.data| <= 1390)
            && (out.Some? ==>
                  && var outer := Decode(Encode(out.value), little);
                  && outer.Some? && outer.value.hFrom == relay && outer.value.hTo == to
                  && outer.value.sn == 0 && outer.value.ptype == PACK_NULL
                  && outer.value.dSize == |outer.value.data|
                  && Decode(outer.value.data, little') == Some(InMemory(og).(chsum := Htonl(FrameSum(og), little'))))
  {
    hide Encode, Decode, Htonl, FrameSum;
    var out := MakePack(0, relay, to, PACK_NULL, Encode(og));
    if out.Some? {
      RoundTrip(out.value, little);
      RoundTrip(og, little');
    }
  }
}
