/**
 What the checksum catches: whether a changed frame is accepted depends on the difference
 alone, and a burst of four bytes is always caught exactly when it does not straddle the
 border of the checksum field.
 */
module Bursts {
  import opened Types
  import opened ByteBits
  import opened Crc
  import opened Wire

  // ------------------------------------------------------------ error patterns

  function XorByte(a: byte, b: byte): byte { By(Xor8(Bv(a), Bv(b))) }

  /** Where two texts differ, bit by bit. */
  function Diff(x: seq<byte>, y: seq<byte>): (d: seq<byte>)
    requires |x| == |y|
    ensures |d| == |x|
  {
    seq(|x|, i requires 0 <= i < |x| => XorByte(x[i], y[i]))
  }

  function Bytes4(c: bv32): (b: seq<byte>)
    ensures |b| == 4
  {
    [Byte3(c), Byte2(c), Byte1(c), Byte0(c)]
  }

  /** A difference that turns accepted frames into accepted frames. */
  predicate Undetected(e: seq<byte>)
    requires |e| >= HEADER
  {
    e[4..8] == Bytes4(Feed(0, Cleared(e)))
  }

  function Widen(x: bv8): bv32 { x as bv32 }

  lemma WidenXor(x: bv8, y: bv8)
    ensures Widen(Xor8(x, y)) == Xor(Widen(x), Widen(y))
  {}

  lemma LowWidens(b: byte)
    ensures Low(b) == Widen(Bv(b))
  {}

  lemma LowXor(a: byte, b: byte)
    ensures Low(XorByte(a, b)) == Xor(Low(a), Low(b))
  {
    hide Low, Widen, Bv, By, Xor8, Xor;
    LowWidens(a);
    LowWidens(b);
    LowWidens(XorByte(a, b));
    BvBy(Xor8(Bv(a), Bv(b)));
    WidenXor(Bv(a), Bv(b));
  }

  lemma XorByteBack(a: byte, b: byte)
    ensures XorByte(a, XorByte(a, b)) == b
  {
    hide Bv, By, Xor8;
    BvBy(Xor8(Bv(a), Bv(b)));
    Xor8Back(Bv(a), Bv(b));
    ByBv(b);
  }

  lemma XorByteZero(a: byte, b: byte)
    ensures XorByte(a, b) == 0 <==> a == b
  {
    hide Bv, By, Xor8;
    Xor8Zero(Bv(a), Bv(b));
    BvBy(Xor8(Bv(a), Bv(b)));
    BvBy(0);
    ByZero();
    ByBv(a);
    ByBv(b);
  }

  lemma ByZero()
    ensures By(0) == 0
  {}

  lemma MixPair(a: bv32, b: bv32, l: bv32, m: bv32)
    ensures Xor(Xor(a, l), Xor(b, m)) == Xor(Xor(a, b), Xor(l, m))
  {
    hide Xor;
    XorAssoc(a, l, Xor(b, m));
    XorAssoc(l, b, m);
    XorComm(l, b);
    XorAssoc(b, l, m);
    XorAssoc(a, b, Xor(l, m));
  }

  /** Feeding is linear in state and text together. */
  lemma {:induction false} FeedPattern(a: bv32, b: bv32, x: seq<byte>, y: seq<byte>)
    requires |x| == |y|
    ensures Xor(Feed(a, x), Feed(b, y)) == Feed(Xor(a, b), Diff(x, y))
    decreases |x|
  {
    hide Turns, Turn, Low, Xor, XorByte;
    if x != [] {
      var l, m := Low(x[0]), Low(y[0]);
      LowXor(x[0], y[0]);
      MixPair(a, b, l, m);
      TurnsLinear(Xor(a, l), Xor(b, m), 8);
      FeedPattern(Turns(Xor(a, l), 8), Turns(Xor(b, m), 8), x[1..], y[1..]);
      assert Diff(x, y)[0] == XorByte(x[0], y[0]) && Diff(x, y)[1..] == Diff(x[1..], y[1..]);
    }
  }

  lemma ChecksumPattern(x: seq<byte>, y: seq<byte>)
    requires |x| == |y|
    ensures Xor(Checksum(x), Checksum(y)) == Feed(0, Diff(x, y))
  {
    hide Feed, Diff;
    FeedPattern(ONES, ONES, x, y);
    MixPair(Feed(ONES, x), Feed(ONES, y), ONES, ONES);
    assert Xor(ONES, ONES) == 0;
    XorZero(Xor(Feed(ONES, x), Feed(ONES, y)));
  }

  lemma Bytes4Xor(a: bv32, b: bv32)
    ensures Diff(Bytes4(a), Bytes4(b)) == Bytes4(Xor(a, b))
  {
    Byte3Xor(a, b);
    Byte2Xor(a, b);
    Byte1Xor(a, b);
    Byte0Xor(a, b);
    hide Byte3, Byte2, Byte1, Byte0, XorByte, Xor;
  }

  function Part3(c: bv32): bv8 { (c >> 24) as bv8 }

  lemma Part3Xor(a: bv32, b: bv32)
    ensures Xor8(Part3(a), Part3(b)) == Part3(Xor(a, b))
  {}

  lemma Byte3Is(c: bv32)
    ensures Byte3(c) == By(Part3(c))
  {}

  lemma Byte3Xor(a: bv32, b: bv32)
    ensures XorByte(Byte3(a), Byte3(b)) == Byte3(Xor(a, b))
  {
    hide Byte3, Part3, Bv, By, Xor8, Xor;
    Byte3Is(a);
    Byte3Is(b);
    Byte3Is(Xor(a, b));
    BvBy(Part3(a));
    BvBy(Part3(b));
    Part3Xor(a, b);
  }

  function Part2(c: bv32): bv8 { ((c >> 16) & 0xFF) as bv8 }

  lemma Part2Xor(a: bv32, b: bv32)
    ensures Xor8(Part2(a), Part2(b)) == Part2(Xor(a, b))
  {}

  lemma Byte2Is(c: bv32)
    ensures Byte2(c) == By(Part2(c))
  {}

  lemma Byte2Xor(a: bv32, b: bv32)
    ensures XorByte(Byte2(a), Byte2(b)) == Byte2(Xor(a, b))
  {
    hide Byte2, Part2, Bv, By, Xor8, Xor;
    Byte2Is(a);
    Byte2Is(b);
    Byte2Is(Xor(a, b));
    BvBy(Part2(a));
    BvBy(Part2(b));
    Part2Xor(a, b);
  }

  function Part1(c: bv32): bv8 { ((c >> 8) & 0xFF) as bv8 }

  lemma Part1Xor(a: bv32, b: bv32)
    ensures Xor8(Part1(a), Part1(b)) == Part1(Xor(a, b))
  {}

  lemma Byte1Is(c: bv32)
    ensures Byte1(c) == By(Part1(c))
  {}

  lemma Byte1Xor(a: bv32, b: bv32)
    ensures XorByte(Byte1(a), Byte1(b)) == Byte1(Xor(a, b))
  {
    hide Byte1, Part1, Bv, By, Xor8, Xor;
    Byte1Is(a);
    Byte1Is(b);
    Byte1Is(Xor(a, b));
    BvBy(Part1(a));
    BvBy(Part1(b));
    Part1Xor(a, b);
  }

  function Part0(c: bv32): bv8 { (c & 0xFF) as bv8 }

  lemma Part0Xor(a: bv32, b: bv32)
    ensures Xor8(Part0(a), Part0(b)) == Part0(Xor(a, b))
  {}

  lemma Byte0Is(c: bv32)
    ensures Byte0(c) == By(Part0(c))
  {}

  lemma Byte0Xor(a: bv32, b: bv32)
    ensures XorByte(Byte0(a), Byte0(b)) == Byte0(Xor(a, b))
  {
    hide Byte0, Part0, Bv, By, Xor8, Xor;
    Byte0Is(a);
    Byte0Is(b);
    Byte0Is(Xor(a, b));
    BvBy(Part0(a));
    BvBy(Part0(b));
    Part0Xor(a, b);
  }

  lemma DiffSame(x: seq<byte>, y: seq<byte>, z: seq<byte>)
    requires |x| == |y| == |z|
    ensures Diff(x, y) == Diff(x, z) <==> y == z
  {
    hide XorByte;
    if Diff(x, y) == Diff(x, z) {
      forall i | 0 <= i < |x| ensures y[i] == z[i] {
        XorByteBack(x[i], y[i]);
        XorByteBack(x[i], z[i]);
        assert Diff(x, y)[i] == XorByte(x[i], y[i]) && Diff(x, z)[i] == XorByte(x[i], z[i]);
      }
    }
  }

  /** The receiver accepts a frame exactly when its checksum field is the sum of the rest. */
  lemma AcceptedExactly(raw: seq<byte>, little: bool)
    requires HEADER <= |raw| < BUFFER
    ensures Decode(raw, little).Some? <==> raw[4..8] == Bytes4(Checksum(Cleared(raw)))
  {
    hide Big, FromBig, Htonl, FromHost, Checksum, Byte3, Byte2, Byte1, Byte0, Cleared;
    FromNetworkOrder(raw[4..8], little);
    BigForth(raw[4..8]);
    BigForth(Bytes4(Checksum(Cleared(raw))));
  }

  lemma ClearedDiff(x: seq<byte>, y: seq<byte>)
    requires |x| == |y| >= HEADER
    ensures Diff(Cleared(x), Cleared(y)) == Cleared(Diff(x, y)) && Diff(x, y)[4..8] == Diff(x[4..8], y[4..8])
  {
    hide XorByte;
    XorByteZero(0, 0);
  }

  /**
   The checksum guarantee in full: changing an accepted frame gives an accepted frame exactly
   when the difference is an undetected one. The frame itself does not matter.
   */
  lemma AcceptanceIsPattern(raw: seq<byte>, bad: seq<byte>, little: bool)
    requires Decode(raw, little).Some? && |bad| == |raw|
    ensures Decode(bad, little).Some? <==> Undetected(Diff(raw, bad))
  {
    assert HEADER <= |raw| < BUFFER;
    hide Decode, Diff, Cleared, Bytes4, Checksum, Feed, Xor;
    var cr, cb := Checksum(Cleared(raw)), Checksum(Cleared(bad));
    AcceptedExactly(raw, little);
    AcceptedExactly(bad, little);
    ChecksumPattern(Cleared(raw), Cleared(bad));
    ClearedDiff(raw, bad);
    Bytes4Xor(cr, cb);
    DiffSame(raw[4..8], bad[4..8], Bytes4(cb));
  }

  // --------------------------------------------------------- what it does not check

  /** Any bytes with the right sum in the checksum field. */
  function Summed(raw: seq<byte>): (r: seq<byte>)
    requires |raw| >= HEADER
    ensures |r| == |raw|
  {
    raw[..4] + Bytes4(Checksum(Cleared(raw))) + raw[8..]
  }

  /** Whatever the bytes say, with that sum they are accepted and taken at their word. */
  lemma AnythingIsAccepted(raw: seq<byte>, little: bool)
    requires HEADER <= |raw| < BUFFER
    ensures var d := Decode(Summed(raw), little);
            && d.Some? && d.value.data == raw[HEADER..] && d.value.ptype == raw[20]
            && d.value.sn == Field(raw, 0, little) && d.value.dSize == Field(raw, 8, little)
            && d.value.hFrom == Field(raw, 12, little) && d.value.hTo == Field(raw, 16, little)
  {
    var r := Summed(raw);
    assert Cleared(r) == Cleared(raw);
    hide Checksum, Bytes4, Htonl, FromHost;
    AcceptedExactly(r, little);
    assert r[4..8] == Bytes4(Checksum(Cleared(raw)));
    assert r[0..4] == raw[0..4] && r[8..12] == raw[8..12] && r[12..16] == raw[12..16] && r[16..20] == raw[16..20];
    assert r[20] == raw[20] && r[21..] == raw[21..];
  }

  /** The size field is never compared with the bytes received: every size comes with every length. */
  lemma SizeIsUnchecked(n: nat, size: u32, little: bool)
    requires HEADER <= n < BUFFER
    ensures exists raw: seq<byte> :: |raw| == n && Decode(raw, little).Some? && Decode(raw, little).value.dSize == size
  {
    hide Big, Decode, Summed;
    var raw := Zeros(8) + Big(size) + Zeros(n - 12);
    assert raw[8..12] == Big(size);
    FieldOfBig(raw, 8, size, little);
    AnythingIsAccepted(raw, little);
    assert |Summed(raw)| == n;
  }

  // ------------------------------------------------------------- bursts caught

  predicate WithinWindow(x: seq<byte>, y: seq<byte>, i: nat) {
    |x| == |y| && x != y && forall j | 0 <= j < |x| && !(i <= j < i + 4) :: x[j] == y[j]
  }

  /** Whatever frame is hit, a change inside the four bytes from `i` on is rejected. */
  ghost predicate AlwaysCaught(i: nat) {
    forall raw: seq<byte>, bad: seq<byte>, little: bool ::
      Decode(raw, little).Some? && WithinWindow(raw, bad, i) ==> Decode(bad, little).None?
  }

  /** A window that lies outside the checksum field, or is the field, is safe. */
  lemma BurstRejected(raw: seq<byte>, bad: seq<byte>, i: nat, little: bool)
    requires Decode(raw, little).Some? && WithinWindow(raw, bad, i) && (i == 0 || i == 4 || i >= 8)
    ensures Decode(bad, little).None?
  {
    hide Htonl, FromHost, Checksum, Word32, Field;
    if i == 4 {
      assert Cleared(bad) == Cleared(raw);
      SameFieldSameBytes(raw, bad, little);
      assert raw == raw[..4] + raw[4..8] + raw[8..] && bad == bad[..4] + bad[4..8] + bad[8..];
    } else {
      var j :| 0 <= j < |raw| && bad[j] != raw[j];
      assert Cleared(bad)[j] == bad[j] && Cleared(raw)[j] == raw[j];
      assert bad[4..8] == raw[4..8];
      var k := if i + 4 <= |raw| then i + 4 else |raw|;
      SameField(raw, bad, little);
      WindowDetected(Cleared(raw), Cleared(bad), i, k);
    }
  }

  lemma SameField(raw: seq<byte>, bad: seq<byte>, little: bool)
    requires |raw| == |bad| >= HEADER && raw[4..8] == bad[4..8]
    ensures Field(raw, 4, little) == Field(bad, 4, little)
  {}

  lemma SameFieldSameBytes(raw: seq<byte>, bad: seq<byte>, little: bool)
    requires |raw| == |bad| >= HEADER
    ensures Field(raw, 4, little) == Field(bad, 4, little) ==> raw[4..8] == bad[4..8]
  {
    hide Big, FromBig, Htonl, FromHost;
    FromNetworkOrder(raw[4..8], little);
    FromNetworkOrder(bad[4..8], little);
    BigForth(raw[4..8]);
    BigForth(bad[4..8]);
  }

  lemma WindowDetected(x: seq<byte>, y: seq<byte>, i: nat, k: nat)
    requires |x| == |y| && x != y && i <= k <= |x| && k - i <= 4
    requires forall j | 0 <= j < |x| && !(i <= j < k) :: x[j] == y[j]
    ensures Sum32(x) != Sum32(y)
  {
    hide Checksum, Word32;
    assert x == x[..i] + x[i..k] + x[k..] && y == x[..i] + y[i..k] + x[k..];
    BurstDetected(x[..i], x[i..k], y[i..k], x[k..]);
    if Sum32(x) == Sum32(y) {
      Word32Injective(Checksum(x), Checksum(y));
    }
  }

  // ------------------------------------------------------- bursts that slip through

  function Zeros(n: nat): (z: seq<byte>)
    ensures |z| == n
  {
    seq(n, _ => 0)
  }

  lemma {:induction false} FeedZeros(c: bv32, n: nat)
    ensures Feed(c, Zeros(n)) == Turns(c, 8 * n)
    decreases n
  {
    hide Turns, Turn, Xor;
    if n == 0 {
      NoTurns(c);
    } else {
      assert Zeros(n)[1..] == Zeros(n - 1) && Low(0) == 0;
      XorZero(c);
      FeedZeros(Turns(c, 8), n - 1);
      TurnsAdd(c, 8, 8 * (n - 1));
    }
  }

  lemma {:induction false} ZeroTurns(n: nat)
    ensures Turns(0, n) == 0
  {
    if n > 0 {
      assert Turn(0) == 0;
      ZeroTurns(n - 1);
    }
  }

  /** The register after a text that is zero but for at most four bytes. */
  lemma FeedBurstAlone(p: nat, x: seq<byte>, z: nat)
    requires |x| <= 4
    ensures Feed(0, Zeros(p) + x + Zeros(z)) == Turns(Word(x), 8 * (|x| + z))
  {
    hide Feed, Turns, Turn, Word, Xor, Zeros;
    FeedAppend(0, Zeros(p) + x, Zeros(z));
    FeedAppend(0, Zeros(p), x);
    FeedZeros(0, p);
    ZeroTurns(8 * p);
    FeedWord(0, x);
    XorComm(0, Word(x));
    XorZero(Word(x));
    FeedZeros(Turns(Word(x), 8 * |x|), z);
    TurnsAdd(Word(x), 8 * |x|, 8 * z);
  }

  function Pattern(i: nat, w: seq<byte>, n: nat): (e: seq<byte>)
    requires |w| == 4 && i + 4 <= n
    ensures |e| == n
  {
    Zeros(i) + w + Zeros(n - i - 4)
  }

  /** An undetected pattern defeats some frame of its length. */
  lemma NotCaught(i: nat, w: seq<byte>, n: nat)
    requires |w| == 4 && w[3] != 0 && i + 4 <= n && HEADER <= n < BUFFER && Undetected(Pattern(i, w, n))
    ensures !AlwaysCaught(i)
  {
    hide Decode, Undetected, XorByte, Encode;
    var e := Pattern(i, w, n);
    var p := Packet(0, 0, 0, 0, 0, Zeros(n - HEADER));
    var raw := Encode(p);
    var bad := Diff(raw, e);
    RoundTrip(p, true);
    forall j | 0 <= j < n ensures XorByte(raw[j], bad[j]) == e[j] && (e[j] == 0 <==> bad[j] == raw[j]) {
      XorByteBack(raw[j], e[j]);
      XorByteZero(raw[j], bad[j]);
    }
    assert Diff(raw, bad) == e;
    assert e[i + 3] == w[3];
    AcceptanceIsPattern(raw, bad, true);
    assert WithinWindow(raw, bad, i);
  }

  /** A burst that starts before the field: it ends inside it. */
  lemma LowPattern(i: nat, w: seq<byte>, n: nat, r: bv32)
    requires 1 <= i <= 3 && |w| == 4 && w[3] != 0 && HEADER <= n < BUFFER
    requires Turns(Word(w[..4 - i]), 8 * (n - i)) == r && Bytes4(r) == w[4 - i..] + Zeros(4 - i)
    ensures !AlwaysCaught(i)
  {
    hide Turns, Word, Bytes4, Feed;
    var e := Pattern(i, w, n);
    assert e[4..8] == w[4 - i..] + Zeros(4 - i);
    assert Cleared(e) == Zeros(i) + w[..4 - i] + Zeros(n - 4);
    FeedBurstAlone(i, w[..4 - i], n - 4);
    NotCaught(i, w, n);
  }

  /** A burst that starts inside the field: it ends behind it. */
  lemma HighPattern(i: nat, w: seq<byte>, n: nat, r: bv32)
    requires 5 <= i <= 7 && |w| == 4 && w[3] != 0 && HEADER <= n < BUFFER
    requires Turns(Word(w[8 - i..]), 8 * (n - 8)) == r && Bytes4(r) == Zeros(i - 4) + w[..8 - i]
    ensures !AlwaysCaught(i)
  {
    hide Turns, Word, Bytes4, Feed;
    var e := Pattern(i, w, n);
    assert e[4..8] == Zeros(i - 4) + w[..8 - i];
    assert Cleared(e) == Zeros(8) + w[8 - i..] + Zeros(n - i - 4);
    FeedBurstAlone(8, w[8 - i..], n - i - 4);
    NotCaught(i, w, n);
  }

  lemma {:induction false} Chain(xs: seq<bv32>)
    requires xs != [] && forall k | 0 <= k < |xs| - 1 :: Eight(xs[k]) == xs[k + 1]
    ensures Turns(xs[0], 8 * (|xs| - 1)) == xs[|xs| - 1]
    decreases |xs|
  {
    hide Turns, Turn, Eight;
    if |xs| == 1 {
      NoTurns(xs[0]);
    } else {
      EightIs(xs[0]);
      Chain(xs[1..]);
      TurnsAdd(xs[0], 8, 8 * (|xs| - 2));
    }
  }

  lemma Slips1()
    ensures !AlwaysCaught(1)
  {
    Orbit1();
    WordOf1();
    assert Bytes4(0xF900_0000) == [0xF9, 0x0, 0x0, 0x0];
    hide Turns, Turn, AlwaysCaught, Word, Bytes4;
    var w: seq<byte> := [0x1C, 0xC3, 0xC3, 0xF9];
    assert w[..3] == [0x1C, 0xC3, 0xC3] && w[3..] == [0xF9];
    LowPattern(1, w, 22, 0xF900_0000);
  }

  lemma WordOf1()
    ensures Word([0x1C, 0xC3, 0xC3]) == 0x00C3_C31C
  {
    assert Word([0xC3]) == 0x0000_00C3;
    assert Word([0xC3, 0xC3]) == 0x0000_C3C3;
    assert Word([0x1C, 0xC3, 0xC3]) == 0x00C3_C31C;
  }

  lemma Orbit1()
    ensures Turns(0x00C3_C31C, 168) == 0xF900_0000
  {
    hide Turns;
    assert Eight(0x00C3_C31C) == 0x1401_9F8C;
    assert Eight(0x1401_9F8C) == 0xE41A_CE94;
    assert Eight(0xE41A_CE94) == 0xF786_4D93;
    assert Eight(0xF786_4D93) == 0x69F1_44B3;
    assert Eight(0x69F1_44B3) == 0x5201_1372;
    assert Eight(0x5201_1372) == 0xBE59_1103;
    assert Eight(0xBE59_1103) == 0x99B7_08AB;
    assert Eight(0x99B7_08AB) == 0x419D_CD68;
    assert Eight(0x419D_CD68) == 0x4328_74A7;
    assert Eight(0x4328_74A7) == 0x48F1_1E3F;
    assert Eight(0x48F1_1E3F) == 0xB62E_DC23;
    assert Eight(0xB62E_DC23) == 0xA2D1_5FAE;
    assert Eight(0xA2D1_5FAE) == 0x31CC_5FB0;
    assert Eight(0x31CC_5FB0) == 0xCB50_7FD3;
    assert Eight(0xCB50_7FD3) == 0x1F11_D311;
    assert Eight(0x1F11_D311) == 0x6AAF_3121;
    assert Eight(0x6AAF_3121) == 0x4C03_BF6F;
    assert Eight(0x4C03_BF6F) == 0xDD41_7F76;
    assert Eight(0xDD41_7F76) == 0xB9BB_9576;
    assert Eight(0xB9BB_9576) == 0xB9DF_6F9C;
    assert Eight(0xB9DF_6F9C) == 0xF900_0000;
    hide Turn, Eight;
    Chain([0x00C3_C31C, 0x1401_9F8C, 0xE41A_CE94, 0xF786_4D93, 0x69F1_44B3, 0x5201_1372,
           0xBE59_1103, 0x99B7_08AB, 0x419D_CD68, 0x4328_74A7, 0x48F1_1E3F, 0xB62E_DC23,
           0xA2D1_5FAE, 0x31CC_5FB0, 0xCB50_7FD3, 0x1F11_D311, 0x6AAF_3121, 0x4C03_BF6F,
           0xDD41_7F76, 0xB9BB_9576, 0xB9DF_6F9C, 0xF900_0000]);
  }

  lemma Slips2()
    ensures !AlwaysCaught(2)
  {
    Orbit2();
    WordOf2();
    assert Bytes4(0x4134_0000) == [0x41, 0x34, 0x0, 0x0];
    hide Turns, Turn, AlwaysCaught, Word, Bytes4;
    var w: seq<byte> := [0xC2, 0xCF, 0x41, 0x34];
    assert w[..2] == [0xC2, 0xCF] && w[2..] == [0x41, 0x34];
    LowPattern(2, w, 21, 0x4134_0000);
  }

  lemma WordOf2()
    ensures Word([0xC2, 0xCF]) == 0x0000_CFC2
  {
    assert Word([0xCF]) == 0x0000_00CF;
    assert Word([0xC2, 0xCF]) == 0x0000_CFC2;
  }

  lemma Orbit2()
    ensures Turns(0x0000_CFC2, 152) == 0x4134_0000
  {
    hide Turns;
    assert Eight(0x0000_CFC2) == 0x756A_A353;
    assert Eight(0x756A_A353) == 0xF217_6AED;
    assert Eight(0xF217_6AED) == 0xDE49_89AF;
    assert Eight(0xDE49_89AF) == 0x46B7_F7F0;
    assert Eight(0x46B7_F7F0) == 0xBDFB_45EB;
    assert Eight(0xBDFB_45EB) == 0x3765_C0B5;
    assert Eight(0x3765_C0B5) == 0xBB3C_22C3;
    assert Eight(0xBB3C_22C3) == 0x02D6_AF28;
    assert Eight(0x02D6_AF28) == 0x35B7_7E55;
    assert Eight(0x35B7_7E55) == 0x1B34_1205;
    assert Eight(0x1B34_1205) == 0x7071_C09D;
    assert Eight(0x7071_C09D) == 0x8ECE_9E39;
    assert Eight(0x8ECE_9E39) == 0x5F8B_4696;
    assert Eight(0x5F8B_4696) == 0x1933_BD37;
    assert Eight(0x1933_BD37) == 0xB8A4_96B2;
    assert Eight(0xB8A4_96B2) == 0x25D7_7636;
    assert Eight(0x25D7_7636) == 0xCF9F_42EF;
    assert Eight(0xCF9F_42EF) == 0x307A_60AB;
    assert Eight(0x307A_60AB) == 0x4134_0000;
    hide Turn, Eight;
    Chain([0x0000_CFC2, 0x756A_A353, 0xF217_6AED, 0xDE49_89AF, 0x46B7_F7F0, 0xBDFB_45EB,
           0x3765_C0B5, 0xBB3C_22C3, 0x02D6_AF28, 0x35B7_7E55, 0x1B34_1205, 0x7071_C09D,
           0x8ECE_9E39, 0x5F8B_4696, 0x1933_BD37, 0xB8A4_96B2, 0x25D7_7636, 0xCF9F_42EF,
           0x307A_60AB, 0x4134_0000]);
  }

  lemma Slips3()
    ensures !AlwaysCaught(3)
  {
    Orbit3();
    WordOf3();
    assert Bytes4(0xFBB4_2000) == [0xFB, 0xB4, 0x20, 0x0];
    hide Turns, Turn, AlwaysCaught, Word, Bytes4;
    var w: seq<byte> := [0xC1, 0xFB, 0xB4, 0x20];
    assert w[..1] == [0xC1] && w[1..] == [0xFB, 0xB4, 0x20];
    LowPattern(3, w, 21, 0xFBB4_2000);
  }

  lemma WordOf3()
    ensures Word([0xC1]) == 0x0000_00C1
  {
    assert Word([0xC1]) == 0x0000_00C1;
  }

  lemma Orbit3()
    ensures Turns(0x0000_00C1, 144) == 0xFBB4_2000
  {
    hide Turns;
    assert Eight(0x0000_00C1) == 0xEC63_F226;
    assert Eight(0xEC63_F226) == 0xD2E1_E60F;
    assert Eight(0xD2E1_E60F) == 0x906D_FC77;
    assert Eight(0x906D_FC77) == 0xCEF1_8963;
    assert Eight(0xCEF1_8963) == 0xD475_C16B;
    assert Eight(0xD475_C16B) == 0xDAB4_CD11;
    assert Eight(0xDAB4_CD11) == 0x6A6A_943F;
    assert Eight(0x6A6A_943F) == 0xB60C_47A9;
    assert Eight(0xB60C_47A9) == 0xAFBC_170B;
    assert Eight(0xAFBC_170B) == 0x977D_659F;
    assert Eight(0x977D_659F) == 0x6027_F3B0;
    assert Eight(0x6027_F3B0) == 0xCB01_947F;
    assert Eight(0xCB01_947F) == 0xC071_6D39;
    assert Eight(0xC071_6D39) == 0x5FC5_F965;
    assert Eight(0x5FC5_F965) == 0x3D87_502E;
    assert Eight(0x3D87_502E) == 0xDCEB_8A9F;
    assert Eight(0xDCEB_8A9F) == 0x606C_655F;
    assert Eight(0x606C_655F) == 0xFBB4_2000;
    hide Turn, Eight;
    Chain([0x0000_00C1, 0xEC63_F226, 0xD2E1_E60F, 0x906D_FC77, 0xCEF1_8963, 0xD475_C16B,
           0xDAB4_CD11, 0x6A6A_943F, 0xB60C_47A9, 0xAFBC_170B, 0x977D_659F, 0x6027_F3B0,
           0xCB01_947F, 0xC071_6D39, 0x5FC5_F965, 0x3D87_502E, 0xDCEB_8A9F, 0x606C_655F,
           0xFBB4_2000]);
  }

  lemma Slips5()
    ensures !AlwaysCaught(5)
  {
    Orbit5();
    WordOf5();
    assert Bytes4(0x0047_FD65) == [0x0, 0x47, 0xFD, 0x65];
    hide Turns, Turn, AlwaysCaught, Word, Bytes4;
    var w: seq<byte> := [0x47, 0xFD, 0x65, 0x43];
    assert w[3..] == [0x43] && w[..3] == [0x47, 0xFD, 0x65];
    HighPattern(5, w, 21, 0x0047_FD65);
  }

  lemma WordOf5()
    ensures Word([0x43]) == 0x0000_0043
  {
    assert Word([0x43]) == 0x0000_0043;
  }

  lemma Orbit5()
    ensures Turns(0x0000_0043, 104) == 0x0047_FD65
  {
    hide Turns;
    assert Eight(0x0000_0043) == 0xEFD5_102A;
    assert Eight(0xEFD5_102A) == 0xDB54_1CC6;
    assert Eight(0xDB54_1CC6) == 0x72DC_3399;
    assert Eight(0x72DC_3399) == 0x89A1_F7D3;
    assert Eight(0x89A1_F7D3) == 0x1F53_2299;
    assert Eight(0x1F53_2299) == 0x89CC_78C2;
    assert Eight(0x89CC_78C2) == 0x75E3_6FE4;
    assert Eight(0x75E3_6FE4) == 0xA712_C50E;
    assert Eight(0xA712_C50E) == 0xE71F_3FC2;
    assert Eight(0xE71F_3FC2) == 0x758D_BCA3;
    assert Eight(0x758D_BCA3) == 0x4FAA_7FEE;
    assert Eight(0x4FAA_7FEE) == 0x47FD_6500;
    assert Eight(0x47FD_6500) == 0x0047_FD65;
    hide Turn, Eight;
    Chain([0x0000_0043, 0xEFD5_102A, 0xDB54_1CC6, 0x72DC_3399, 0x89A1_F7D3, 0x1F53_2299,
           0x89CC_78C2, 0x75E3_6FE4, 0xA712_C50E, 0xE71F_3FC2, 0x758D_BCA3, 0x4FAA_7FEE,
           0x47FD_6500, 0x0047_FD65]);
  }

  lemma Slips6()
    ensures !AlwaysCaught(6)
  {
    Orbit6();
    WordOf6();
    assert Bytes4(0x0000_050B) == [0x0, 0x0, 0x5, 0xB];
    hide Turns, Turn, AlwaysCaught, Word, Bytes4;
    var w: seq<byte> := [0x5, 0xB, 0x81, 0xAC];
    assert w[2..] == [0x81, 0xAC] && w[..2] == [0x5, 0xB];
    HighPattern(6, w, 21, 0x0000_050B);
  }

  lemma WordOf6()
    ensures Word([0x81, 0xAC]) == 0x0000_AC81
  {
    assert Word([0xAC]) == 0x0000_00AC;
    assert Word([0x81, 0xAC]) == 0x0000_AC81;
  }

  lemma Orbit6()
    ensures Turns(0x0000_AC81, 104) == 0x0000_050B
  {
    hide Turns;
    assert Eight(0x0000_AC81) == 0x9ABF_B31A;
    assert Eight(0x9ABF_B31A) == 0xFDF8_46C9;
    assert Eight(0xFDF8_46C9) == 0xE245_8252;
    assert Eight(0xE245_8252) == 0x8587_755A;
    assert Eight(0x8587_755A) == 0x8B3B_3F9F;
    assert Eight(0x8B3B_3F9F) == 0x603B_B5EA;
    assert Eight(0x603B_B5EA) == 0x40BF_30D3;
    assert Eight(0x40BF_30D3) == 0x1F9A_3C5E;
    assert Eight(0x1F9A_3C5E) == 0x8CCC_E6CF;
    assert Eight(0x8CCC_E6CF) == 0x0B57_13C7;
    assert Eight(0x0B57_13C7) == 0x050B_0000;
    assert Eight(0x050B_0000) == 0x0005_0B00;
    assert Eight(0x0005_0B00) == 0x0000_050B;
    hide Turn, Eight;
    Chain([0x0000_AC81, 0x9ABF_B31A, 0xFDF8_46C9, 0xE245_8252, 0x8587_755A, 0x8B3B_3F9F,
           0x603B_B5EA, 0x40BF_30D3, 0x1F9A_3C5E, 0x8CCC_E6CF, 0x0B57_13C7, 0x050B_0000,
           0x0005_0B00, 0x0000_050B]);
  }

  lemma Slips7()
    ensures !AlwaysCaught(7)
  {
    Orbit7();
    WordOf7();
    assert Bytes4(0x0000_004B) == [0x0, 0x0, 0x0, 0x4B];
    hide Turns, Turn, AlwaysCaught, Word, Bytes4;
    var w: seq<byte> := [0x4B, 0x4F, 0xA2, 0x37];
    assert w[1..] == [0x4F, 0xA2, 0x37] && w[..1] == [0x4B];
    HighPattern(7, w, 26, 0x0000_004B);
  }

  lemma WordOf7()
    ensures Word([0x4F, 0xA2, 0x37]) == 0x0037_A24F
  {
    assert Word([0x37]) == 0x0000_0037;
    assert Word([0xA2, 0x37]) == 0x0000_37A2;
    assert Word([0x4F, 0xA2, 0x37]) == 0x0037_A24F;
  }

  lemma Orbit7()
    ensures Turns(0x0037_A24F, 144) == 0x0000_004B
  {
    hide Turns;
    assert Eight(0x0037_A24F) == 0xE663_6BA3;
    assert Eight(0xE663_6BA3) == 0x4F39_9139;
    assert Eight(0x4F39_9139) == 0x5F4A_B199;
    assert Eight(0x5F4A_B199) == 0x898C_6151;
    assert Eight(0x898C_6151) == 0x1CE5_ED03;
    assert Eight(0x1CE5_ED03) == 0x9915_B457;
    assert Eight(0x9915_B457) == 0xF596_D1E3;
    assert Eight(0xF596_D1E3) == 0x39F6_2513;
    assert Eight(0x39F6_2513) == 0x8487_B7FB;
    assert Eight(0x8487_B7FB) == 0x2AEB_AC23;
    assert Eight(0x2AEB_AC23) == 0xA24D_9ADE;
    assert Eight(0xA24D_9ADE) == 0x61C9_B249;
    assert Eight(0x61C9_B249) == 0x0F61_3086;
    assert Eight(0x0F61_3086) == 0x04D4_4725;
    assert Eight(0x04D4_4725) == 0x4B00_0000;
    assert Eight(0x4B00_0000) == 0x004B_0000;
    assert Eight(0x004B_0000) == 0x0000_4B00;
    assert Eight(0x0000_4B00) == 0x0000_004B;
    hide Turn, Eight;
    Chain([0x0037_A24F, 0xE663_6BA3, 0x4F39_9139, 0x5F4A_B199, 0x898C_6151, 0x1CE5_ED03,
           0x9915_B457, 0xF596_D1E3, 0x39F6_2513, 0x8487_B7FB, 0x2AEB_AC23, 0xA24D_9ADE,
           0x61C9_B249, 0x0F61_3086, 0x04D4_4725, 0x4B00_0000, 0x004B_0000, 0x0000_4B00,
           0x0000_004B]);
  }

  /** A four-byte burst is always caught exactly when it lies wholly outside, or wholly inside, the field. */
  lemma CaughtExactly(i: nat)
    ensures AlwaysCaught(i) <==> i == 0 || i == 4 || i >= 8
  {
    hide Decode;
    if i == 0 || i == 4 || i >= 8 {
      forall raw: seq<byte>, bad: seq<byte>, little: bool | Decode(raw, little).Some? && WithinWindow(raw, bad, i)
        ensures Decode(bad, little).None?
      {
        BurstRejected(raw, bad, i, little);
      }
    }
    if i == 1 {
      Slips1();
    }
    if i == 2 {
      Slips2();
    }
    if i == 3 {
      Slips3();
    }
    if i == 5 {
      Slips5();
    }
    if i == 6 {
      Slips6();
    }
    if i == 7 {
      Slips7();
    }
  }
}
