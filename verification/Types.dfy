/** Machine integers and the packet record shared by every layer. */
module Types {

  const U32_LIMIT: int := 0x1_0000_0000
  const U32_MAX: u32 := 0xFFFF_FFFF

  type u32 = x: int | 0 <= x < 0x1_0000_0000
  type byte = x: int | 0 <= x < 256

  datatype Option<+T> = None | Some(value: T)

  // The packet types the modelled code compares against.
  const PACK_DATA: byte := 0
  const PACK_RACK: byte := 7
  const PACK_FIN: byte := 8
  const PACK_NULL: byte := 10

  /** A protocol packet in host order; its d_size field is the length of `data`. */
  datatype Packet = Packet(sn: u32, chsum: u32, hFrom: u32, hTo: u32, ptype: byte, data: seq<byte>)

  /** Unsigned 32-bit increment. */
  function Succ32(x: u32): u32 {
    if x == U32_MAX then 0 else x + 1
  }

  /** The C expression `(int32_t)(a - b)` on two uint32_t operands. */
  function SignedDiff(a: u32, b: u32): (d: int)
    ensures -0x8000_0000 <= d < 0x8000_0000
    ensures d == a - b || d == a - b + U32_LIMIT || d == a - b - U32_LIMIT
  {
    var d := if a >= b then a - b else a - b + U32_LIMIT;
    if d < 0x8000_0000 then d else d - U32_LIMIT
  }
}

/** Bytes as integers and as bit-vectors. */
module ByteBits {

  lemma Succ(y: bv8)
    requires y as int < 255
    ensures (y + 1) as int == y as int + 1
  {}

  lemma Unique(b: int, x: bv8)
    requires x as int == b
    ensures b as bv8 == x
  {}

  lemma {:induction false} Bits(b: int) returns (x: bv8)
    requires 0 <= b < 256
    ensures x as int == b
    decreases b
  {
    if b == 0 {
      return 0;
    }
    var y := Bits(b - 1);
    Succ(y);
    return y + 1;
  }

  /** A byte survives the trip through eight bits. */
  lemma ByteBack(b: int)
    requires 0 <= b < 256
    ensures (b as bv8) as int == b
  {
    var x := Bits(b);
    Unique(b, x);
  }

  // Conversions and exclusive-or under names, so that proofs about bytes need not look inside.
  function Bv(b: int): bv8
    requires 0 <= b < 256
  {
    b as bv8
  }

  function By(x: bv8): (b: int)
    ensures 0 <= b < 256
  {
    x as int
  }

  function Xor8(x: bv8, y: bv8): bv8 { x ^ y }

  lemma BvBy(x: bv8)
    ensures Bv(By(x)) == x
  {
    Unique(x as int, x);
  }

  lemma ByBv(b: int)
    requires 0 <= b < 256
    ensures By(Bv(b)) == b
  {
    ByteBack(b);
  }

  lemma Xor8Back(x: bv8, y: bv8)
    ensures Xor8(x, Xor8(x, y)) == y
  {}

  lemma Xor8Zero(x: bv8, y: bv8)
    ensures Xor8(x, y) == 0 <==> x == y
  {}
}
