/** The reflected CRC-32 of proto.c (section 8 of RFC 1952): what makes it catch short bursts. */
module Crc {
  import opened Types
  import opened ByteBits

  const POLY: bv32 := 0xEDB8_8320

  // The bit-vector operators carry names so that proofs about whole texts can treat them
  // as black boxes; only the single-step lemmas look inside.
  function Xor(a: bv32, b: bv32): bv32 { a ^ b }
  function Shl8(w: bv32): bv32 { w << 8 }
  function Low(b: byte): bv32 { (b as bv8) as bv32 }

  /** One turn of the inner loop. */
  function Turn(c: bv32): bv32 { (c >> 1) ^ (POLY & (0 - (c & 1))) }

  function Turns(c: bv32, n: nat): bv32
    decreases n
  {
    if n == 0 then c else Turns(Turn(c), n - 1)
  }

  function Feed(c: bv32, data: seq<byte>): bv32
    decreases |data|
  {
    if data == [] then c else Feed(Turns(Xor(c, Low(data[0])), 8), data[1..])
  }

  const ONES: bv32 := 0xFFFF_FFFF

  function Checksum(data: seq<byte>): bv32 { Xor(Feed(ONES, data), ONES) }

  // ------------------------------------------------------- the program's loops

  method Crc32(data: seq<byte>) returns (r: bv32)
    ensures r == Checksum(data)
  {
    hide Turn, Turns, Low;
    var crc := ONES;
    for i := 0 to |data|
      invariant Feed(crc, data[i..]) == Feed(ONES, data)
    {
      assert data[i..][1..] == data[i + 1..];
      var mixed := MixByte(crc, data[i]);
      crc := EightTurns(mixed);
    }
    r := Complement(crc);
  }

  method MixByte(crc: bv32, b: byte) returns (r: bv32)
    ensures r == Xor(crc, Low(b))
  {
    r := crc ^ ((b as bv8) as bv32);
  }

  method EightTurns(c: bv32) returns (crc: bv32)
    ensures crc == Turns(c, 8)
  {
    hide Turn;
    crc := c;
    for j := 0 to 8
      invariant Turns(crc, 8 - j) == Turns(c, 8)
    {
      crc := ShiftOut(crc);
    }
  }

  method ShiftOut(crc: bv32) returns (r: bv32)
    ensures r == Turn(crc)
  {
    r := (crc >> 1) ^ (POLY & (0 - (crc & 1)));
  }

  method Complement(crc: bv32) returns (r: bv32)
    ensures r == Xor(crc, ONES)
  {
    r := !crc;
  }

  // -------------------------------------------------------------- single steps

  lemma TurnEven(c: bv32)
    requires c & 1 == 0
    ensures Turn(c) == c >> 1
  {}

  lemma TurnOdd(c: bv32)
    requires c & 1 == 1
    ensures Turn(c) == (c >> 1) ^ POLY
  {}

  /** One turn is linear over exclusive-or. */
  lemma TurnLinear(a: bv32, b: bv32)
    ensures Turn(Xor(a, b)) == Xor(Turn(a), Turn(b))
  {
    if a & 1 == 0 {
      TurnEven(a);
      if b & 1 == 0 { TurnEven(b); TurnEven(a ^ b); } else { TurnOdd(b); TurnOdd(a ^ b); }
    } else {
      TurnOdd(a);
      if b & 1 == 0 { TurnEven(b); TurnOdd(a ^ b); } else { TurnOdd(b); TurnEven(a ^ b); }
    }
  }

  /** The turn that runs backwards. */
  function Unturn(c: bv32): bv32 {
    if c & 0x8000_0000 != 0 then ((c ^ POLY) << 1) | 1 else c << 1
  }

  /** One turn loses nothing. */
  lemma TurnInvertible(c: bv32)
    ensures Unturn(Turn(c)) == c
  {
    if c & 1 == 0 { TurnEven(c); } else { TurnOdd(c); }
  }

  lemma XorCancel(a: bv32, b: bv32, x: bv32)
    requires Xor(a, x) == Xor(b, x)
    ensures a == b
  {
    assert (a ^ x) ^ x == a && (b ^ x) ^ x == b;
  }

  lemma XorAssoc(a: bv32, b: bv32, c: bv32)
    ensures Xor(Xor(a, b), c) == Xor(a, Xor(b, c))
  {}

  lemma XorComm(a: bv32, b: bv32)
    ensures Xor(a, b) == Xor(b, a)
  {}

  lemma XorZero(a: bv32)
    ensures Xor(a, 0) == a
  {}

  lemma TurnDouble(u: bv32)
    requires u <= 0x7FFF_FFFF
    ensures Turn(u << 1) == u
  {}

  // ----------------------------------------------------------------- whole texts

  lemma {:induction false} TurnsLinear(a: bv32, b: bv32, n: nat)
    ensures Turns(Xor(a, b), n) == Xor(Turns(a, n), Turns(b, n))
    decreases n
  {
    hide Turn, Xor;
    if n > 0 {
      TurnLinear(a, b);
      TurnsLinear(Turn(a), Turn(b), n - 1);
    }
  }

  lemma {:induction false} TurnsInjective(a: bv32, b: bv32, n: nat)
    requires Turns(a, n) == Turns(b, n)
    ensures a == b
    decreases n
  {
    hide Turn, Unturn;
    if n > 0 {
      TurnsInjective(Turn(a), Turn(b), n - 1);
      TurnInvertible(a);
      TurnInvertible(b);
    }
  }

  /** Equal bytes never bring two different states together. */
  lemma {:induction false} FeedInjective(a: bv32, b: bv32, data: seq<byte>)
    requires Feed(a, data) == Feed(b, data)
    ensures a == b
    decreases |data|
  {
    hide Turn, Turns, Low, Xor;
    if data != [] {
      var x, y := Xor(a, Low(data[0])), Xor(b, Low(data[0]));
      FeedInjective(Turns(x, 8), Turns(y, 8), data[1..]);
      TurnsInjective(x, y, 8);
      XorCancel(a, b, Low(data[0]));
    }
  }

  lemma {:induction false} FeedAppend(c: bv32, x: seq<byte>, y: seq<byte>)
    ensures Feed(c, x + y) == Feed(Feed(c, x), y)
    decreases |x|
  {
    hide Turn, Turns, Low, Xor;
    if x == [] {
      assert x + y == y;
    } else {
      assert (x + y)[1..] == x[1..] + y;
      FeedAppend(Turns(Xor(c, Low(x[0])), 8), x[1..], y);
    }
  }

  lemma {:induction false} TurnsAdd(c: bv32, m: nat, n: nat)
    ensures Turns(c, m + n) == Turns(Turns(c, m), n)
    decreases m
  {
    hide Turn;
    if m > 0 {
      TurnsAdd(Turn(c), m - 1, n);
    }
  }

  // ------------------------------------------------------------ short bursts

  /** Up to four bytes as one little-endian word. */
  function Word(x: seq<byte>): bv32 {
    if x == [] then 0 else Xor(Low(x[0]), Shl8(Word(x[1..])))
  }

  /** The largest word of `n` bytes. */
  function Top(n: nat): bv32 {
    if n == 0 then 0 else if n == 1 then 0xFF else if n == 2 then 0xFFFF
    else if n == 3 then 0xFF_FFFF else 0xFFFF_FFFF
  }

  lemma LowRange(b: byte)
    ensures Low(b) <= 0xFF
  {}

  lemma LowInjective(a: byte, b: byte)
    requires Low(a) == Low(b)
    ensures a == b
  {
    ByteBack(a);
    ByteBack(b);
    assert (a as bv8) == (b as bv8);
  }

  lemma PackFits(l: bv32, w: bv32, n: nat)
    requires l <= 0xFF && n <= 3 && w <= Top(n)
    ensures Xor(l, Shl8(w)) <= Top(n + 1)
  {
    if n == 0 { assert w == 0; } else if n == 1 {} else if n == 2 {} else {}
  }

  lemma TopGrows(n: nat)
    requires n <= 3
    ensures Top(n) <= 0xFF_FFFF
  {}

  lemma {:induction false} WordFits(x: seq<byte>)
    requires |x| <= 4
    ensures Word(x) <= Top(|x|)
  {
    hide Top, Low, Xor, Shl8;
    if x == [] {
      assert Word(x) <= Top(0) by { EmptyFits(); }
    } else {
      WordFits(x[1..]);
      LowRange(x[0]);
      PackFits(Low(x[0]), Word(x[1..]), |x| - 1);
    }
  }

  lemma EmptyFits()
    ensures 0 <= Top(0)
  {}

  lemma Unpack(l: bv32, w: bv32)
    requires l <= 0xFF && w <= 0xFF_FFFF
    ensures Xor(l, Shl8(w)) & 0xFF == l && Xor(l, Shl8(w)) >> 8 == w
  {}

  lemma PackInjective(l: bv32, w: bv32, l': bv32, w': bv32)
    requires l <= 0xFF && w <= 0xFF_FFFF && l' <= 0xFF && w' <= 0xFF_FFFF
    requires Xor(l, Shl8(w)) == Xor(l', Shl8(w'))
    ensures l == l' && w == w'
  {
    Unpack(l, w);
    Unpack(l', w');
  }

  lemma {:induction false} WordInjective(x: seq<byte>, y: seq<byte>)
    requires |x| == |y| <= 4 && Word(x) == Word(y)
    ensures x == y
  {
    hide Top, Low, Xor, Shl8;
    if x != [] {
      WordFits(x[1..]);
      WordFits(y[1..]);
      TopGrows(|x| - 1);
      LowRange(x[0]);
      LowRange(y[0]);
      PackInjective(Low(x[0]), Word(x[1..]), Low(y[0]), Word(y[1..]));
      LowInjective(x[0], y[0]);
      WordInjective(x[1..], y[1..]);
      assert x == [x[0]] + x[1..] && y == [y[0]] + y[1..];
    }
  }

  lemma TwoTurns(u: bv32)
    requires u <= 0x3FFF_FFFF
    ensures Turns(u << 2, 2) == u
  {
    hide Turn;
    assert u << 2 == (u << 1) << 1 && u << 1 <= 0x7FFF_FFFF;
    TurnDouble(u << 1);
    TurnDouble(u);
    assert Turns(u << 2, 2) == Turns(u << 1, 1) == Turns(u, 0);
  }

  lemma FourTurns(u: bv32)
    requires u <= 0x0FFF_FFFF
    ensures Turns(u << 4, 4) == u
  {
    hide Turn, Turns;
    assert u << 4 == (u << 2) << 2 && u << 2 <= 0x3FFF_FFFF;
    TwoTurns(u << 2);
    TwoTurns(u);
    TurnsAdd(u << 4, 2, 2);
  }

  /** Eight turns of a word whose low byte is clear only shift it down. */
  lemma TurnsOfShifted(w: bv32)
    requires w <= 0xFF_FFFF
    ensures Turns(Shl8(w), 8) == w
  {
    hide Turn, Turns;
    assert w << 8 == (w << 4) << 4 && w << 4 <= 0x0FFF_FFFF;
    FourTurns(w << 4);
    FourTurns(w);
    TurnsAdd(w << 8, 4, 4);
  }

  /** Feeding at most four bytes is one run of turns over the state mixed with their word. */
  lemma {:induction false} FeedWord(c: bv32, x: seq<byte>)
    requires |x| <= 4
    ensures Feed(c, x) == Turns(Xor(c, Word(x)), 8 * |x|)
    decreases |x|
  {
    hide Turn, Turns, Low, Xor, Shl8;
    if x == [] {
      XorZero(c);
      NoTurns(c);
    } else {
      var l, w := Low(x[0]), Word(x[1..]);
      FeedWord(Turns(Xor(c, l), 8), x[1..]);
      WordFits(x[1..]);
      TopGrows(|x| - 1);
      MixThenTurn(c, l, w);
      TurnsAdd(Xor(c, Word(x)), 8, 8 * |x[1..]|);
    }
  }

  lemma NoTurns(c: bv32)
    ensures Turns(c, 0) == c
  {}

  lemma MixThenTurn(c: bv32, l: bv32, w: bv32)
    requires w <= 0xFF_FFFF
    ensures Turns(Xor(c, Xor(l, Shl8(w))), 8) == Xor(Turns(Xor(c, l), 8), w)
  {
    hide Turn, Turns, Xor, Shl8;
    TurnsOfShifted(w);
    TurnsLinear(Xor(c, l), Shl8(w), 8);
    XorAssoc(c, l, Shl8(w));
  }

  lemma FeedBurst(c: bv32, x: seq<byte>, y: seq<byte>)
    requires |x| == |y| <= 4 && Feed(c, x) == Feed(c, y)
    ensures x == y
  {
    hide *;
    FeedWord(c, x);
    FeedWord(c, y);
    TurnsInjective(Xor(c, Word(x)), Xor(c, Word(y)), 8 * |x|);
    XorComm(c, Word(x));
    XorComm(c, Word(y));
    XorCancel(Word(x), Word(y), c);
    WordInjective(x, y);
  }

  /** Two texts that differ only inside one window of at most four bytes never share a checksum. */
  lemma BurstDetected(p: seq<byte>, x: seq<byte>, y: seq<byte>, s: seq<byte>)
    requires |x| == |y| <= 4 && x != y
    ensures Checksum(p + x + s) != Checksum(p + y + s)
  {
    hide Feed, Turns, Turn, Low, Xor;
    FeedAppend(ONES, p + x, s);
    FeedAppend(ONES, p + y, s);
    FeedAppend(ONES, p, x);
    FeedAppend(ONES, p, y);
    if Checksum(p + x + s) == Checksum(p + y + s) {
      XorCancel(Feed(ONES, p + x + s), Feed(ONES, p + y + s), ONES);
      FeedInjective(Feed(ONES, p + x), Feed(ONES, p + y), s);
      FeedBurst(Feed(ONES, p), x, y);
    }
  }

  // ----------------------------------------------------- differences of texts

  /** Feeding is affine: a difference of states turns into a difference that the text cannot change. */
  lemma {:induction false} FeedDifference(a: bv32, d: bv32, data: seq<byte>)
    ensures Feed(Xor(a, d), data) == Xor(Feed(a, data), Turns(d, 8 * |data|))
    decreases |data|
  {
    hide Turn, Turns, Low, Xor;
    if data == [] {
      NoTurns(d);
    } else {
      var l := Low(data[0]);
      XorAssoc(a, d, l);
      XorComm(d, l);
      XorAssoc(a, l, d);
      TurnsLinear(Xor(a, l), d, 8);
      FeedDifference(Turns(Xor(a, l), 8), Turns(d, 8), data[1..]);
      TurnsAdd(d, 8, 8 * |data[1..]|);
    }
  }

  // ------------------------------------------------------------- the check value

  // The registers are evaluated eight turns, one byte, at a time.
  function Eight(c: bv32): bv32 { Turn(Turn(Turn(Turn(Turn(Turn(Turn(Turn(c)))))))) }

  lemma EightIs(c: bv32)
    ensures Eight(c) == Turns(c, 8)
  {
    hide Turn;
    NoTurns(Eight(c));
    assert Turns(c, 8) == Turns(Turn(Turn(Turn(Turn(c)))), 4);
  }

  lemma FeedOne(c: bv32, data: seq<byte>)
    requires data != []
    ensures Feed(c, data) == Feed(Eight(Xor(c, Low(data[0]))), data[1..])
  {
    hide Eight, Turns, Xor, Low;
    EightIs(Xor(c, Low(data[0])));
  }

  /** The sum of the digits 1 to 9, by which this CRC is told from its variants, and of nothing. */
  lemma CheckValue()
    ensures Checksum([49, 50, 51, 52, 53, 54, 55, 56, 57]) == 0xCBF4_3926 && Checksum([]) == 0
  {
    hide Turns, Feed;
    CheckRegisters();
    assert Feed(ONES, []) == ONES by { FeedNothing(ONES); }
    assert Xor(0x340B_C6D9, ONES) == 0xCBF4_3926 && Xor(ONES, ONES) == 0;
  }

  lemma FeedNothing(c: bv32)
    ensures Feed(c, []) == c
  {}

  lemma CheckRegisters()
    ensures Feed(ONES, [49, 50, 51, 52, 53, 54, 55, 56, 57]) == 0x340B_C6D9
  {
    var text: seq<byte> := [49, 50, 51, 52, 53, 54, 55, 56, 57];
    hide Turns, Feed;
    assert Eight(Xor(0xFFFF_FFFF, Low(49))) == 0x7C23_1048;
    assert Eight(Xor(0x7C23_1048, Low(50))) == 0xB0AC_BB32;
    assert Eight(Xor(0xB0AC_BB32, Low(51))) == 0x77B7_9C2D;
    assert Eight(Xor(0x77B7_9C2D, Low(52))) == 0x641C_1F5C;
    assert Eight(Xor(0x641C_1F5C, Low(53))) == 0x340A_C5E3;
    assert Eight(Xor(0x340A_C5E3, Low(54))) == 0xF68D_2C9E;
    assert Eight(Xor(0xF68D_2C9E, Low(55))) == 0xAFFC_9660;
    assert Eight(Xor(0xAFFC_9660, Low(56))) == 0x651F_2550;
    assert Eight(Xor(0x651F_2550, Low(57))) == 0x340B_C6D9;
    hide Turn, Eight, Xor, Low;
    FeedOne(0xFFFF_FFFF, text);
    FeedOne(0x7C23_1048, text[1..]);
    FeedOne(0xB0AC_BB32, text[2..]);
    FeedOne(0x77B7_9C2D, text[3..]);
    FeedOne(0x641C_1F5C, text[4..]);
    FeedOne(0x340A_C5E3, text[5..]);
    FeedOne(0xF68D_2C9E, text[6..]);
    FeedOne(0xAFFC_9660, text[7..]);
    FeedOne(0x651F_2550, text[8..]);
    FeedNothing(0x340B_C6D9);
    assert text[1..] == [50, 51, 52, 53, 54, 55, 56, 57] && text[9..] == [];
    assert forall k | 0 <= k < 9 :: text[k..][1..] == text[k + 1..] && text[k..][0] == text[k];
  }
}
