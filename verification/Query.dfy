/** uhttp_get_query_param: finding a parameter and percent/plus decoding it (section 2.1 of RFC 3986). */
module Query {
  import opened Types

  const AMP: byte := 38
  const EQ: byte := 61
  const QMARK: byte := 63
  const PERCENT: byte := 37
  const PLUS: byte := 43
  const SPACE: byte := 32

  type Bytes = seq<byte>

  // ---------------------------------------------------------------- decoding

  predicate IsHex(c: byte) { 48 <= c <= 57 || 65 <= c <= 70 || 97 <= c <= 102 }

  function HexValue(c: byte): (v: nat)
    requires IsHex(c)
    ensures v < 16
  {
    if c <= 57 then c - 48 else if c <= 70 then c - 55 else c - 87
  }

  /** The byte two hexadecimal digits stand for. */
  function ByteOf(h: byte, l: byte): byte
    requires IsHex(h) && IsHex(l)
  {
    HexValue(h) * 16 + HexValue(l)
  }

  predicate Escape(v: Bytes) { |v| > 2 && v[0] == PERCENT && IsHex(v[1]) && IsHex(v[2]) }

  /** At most `room` bytes of the decoded value. */
  function Decode(v: Bytes, room: nat): (r: Bytes)
    ensures |r| <= room
    decreases |v|
  {
    if v == [] || room == 0 then []
    else if Escape(v) then [ByteOf(v[1], v[2])] + Decode(v[3..], room - 1)
    else if v[0] == PLUS then [SPACE] + Decode(v[1..], room - 1)
    else [v[0]] + Decode(v[1..], room - 1)
  }

  // ------------------------------------------------------ encoding, independently

  /** The digits 0 to 9, then A to F or a to f. */
  function HexDigit(n: nat, lower: bool): byte
    requires n < 16
  {
    if n < 10 then 48 + n else if lower then 97 + (n - 10) else 65 + (n - 10)
  }

  predicate DigitFor(c: byte, n: nat) { n < 16 && (c == HexDigit(n, false) || c == HexDigit(n, true)) }

  /** The first three bytes are an escape for the byte `b`. */
  predicate EscapeFor(e: Bytes, b: byte) {
    |e| > 2 && e[0] == PERCENT && DigitFor(e[1], b / 16) && DigitFor(e[2], b % 16)
  }

  ghost predicate StartsEscape(e: Bytes) { exists b: byte :: EscapeFor(e, b) }

  /**
   `e` is one of the encodings of the value `v`: escapes in either case, plus for a space, and any
   other byte for itself, a percent sign too if it starts no escape.
   */
  ghost predicate Encodes(e: Bytes, v: Bytes)
    decreases |v|
  {
    if v == [] then e == []
    else
      || (e != [] && e[0] == v[0] && e[0] !in {PLUS, AMP} && !StartsEscape(e) && Encodes(e[1..], v[1..]))
      || (e != [] && e[0] == PLUS && v[0] == SPACE && Encodes(e[1..], v[1..]))
      || (EscapeFor(e, v[0]) && Encodes(e[3..], v[1..]))
  }

  lemma DigitRead(c: byte, n: nat)
    ensures DigitFor(c, n) <==> IsHex(c) && HexValue(c) == n
  {}

  /** The parser's test and value of an escape against the independent ones. */
  lemma EscapeRead(e: Bytes, b: byte)
    ensures EscapeFor(e, b) <==> Escape(e) && ByteOf(e[1], e[2]) == b
  {
    if |e| > 2 {
      DigitRead(e[1], b / 16);
      DigitRead(e[2], b % 16);
      assert b == b / 16 * 16 + b % 16;
    }
  }

  lemma EscapeFound(e: Bytes)
    ensures Escape(e) <==> StartsEscape(e)
  {
    if Escape(e) {
      EscapeRead(e, ByteOf(e[1], e[2]));
    }
    if StartsEscape(e) {
      var b: byte :| EscapeFor(e, b);
      EscapeRead(e, b);
    }
  }

  /** Decoding undoes every encoding, and cuts the value off exactly where the buffer ends. */
  lemma {:induction false} DecodeUndoesEncoding(e: Bytes, v: Bytes, room: nat)
    requires Encodes(e, v)
    ensures Decode(e, room) == if |v| <= room then v else v[..room]
    decreases |v|
  {
    hide StartsEscape, EscapeFor, Escape;
    if v != [] && room > 0 {
      EscapeFound(e);
      EscapeRead(e, v[0]);
      if Escape(e) {
        EscapeIs(e);
      }
      if EscapeFor(e, v[0]) && Encodes(e[3..], v[1..]) {
        DecodeUndoesEncoding(e[3..], v[1..], room - 1);
      } else {
        DecodeUndoesEncoding(e[1..], v[1..], room - 1);
        PlusIsNoEscape(e);
      }
      assert v == [v[0]] + v[1..];
    }
  }

  lemma EscapeIs(e: Bytes)
    requires Escape(e)
    ensures |e| > 2 && IsHex(e[1]) && IsHex(e[2])
  {}

  lemma PlusIsNoEscape(e: Bytes)
    ensures e != [] && e[0] == PLUS ==> !Escape(e)
  {}

  /** Every text without a separator is an encoding, of exactly the value it decodes to. */
  lemma {:induction false} DecodesExactly(e: Bytes, v: Bytes)
    requires AMP !in e
    ensures Encodes(e, v) <==> v == Decode(e, |e|)
    decreases |e|
  {
    if Encodes(e, v) {
      EncodingNotShorter(e, v);
      DecodeUndoesEncoding(e, v, |e|);
    }
    if v == Decode(e, |e|) && e != [] {
      hide StartsEscape, EscapeFor, Escape;
      EscapeFound(e);
      assert e[0] in e && v != [];
      if Escape(e) {
        EscapeIs(e);
        EscapeRead(e, ByteOf(e[1], e[2]));
        RoomEnough(e[3..], |e| - 1);
        DecodesExactly(e[3..], v[1..]);
      } else {
        RoomEnough(e[1..], |e| - 1);
        DecodesExactly(e[1..], v[1..]);
      }
    }
  }

  lemma {:induction false} EncodingNotShorter(e: Bytes, v: Bytes)
    requires Encodes(e, v)
    ensures |v| <= |e|
    decreases |v|
  {
    if v != [] {
      if EscapeFor(e, v[0]) && Encodes(e[3..], v[1..]) {
        EncodingNotShorter(e[3..], v[1..]);
      } else {
        EncodingNotShorter(e[1..], v[1..]);
      }
    }
  }

  /** A buffer as long as the text is long enough. */
  lemma {:induction false} RoomEnough(e: Bytes, room: nat)
    requires room >= |e|
    ensures Decode(e, room) == Decode(e, |e|)
    decreases |e|
  {
    if e != [] {
      if Escape(e) {
        RoomEnough(e[3..], room - 1);
        RoomEnough(e[3..], |e| - 1);
      } else {
        RoomEnough(e[1..], room - 1);
      }
    }
  }

  /** Every byte escaped, in the case that `lower` picks for each. */
  function EscapeAll(v: Bytes, lower: nat -> bool): Bytes
    decreases |v|
  {
    if v == [] then []
    else [PERCENT, HexDigit(v[0] / 16, lower(|v|)), HexDigit(v[0] % 16, lower(|v|))] + EscapeAll(v[1..], lower)
  }

  /** Every value has an encoding, in any mixture of cases, so the law above is about all values. */
  lemma {:induction false} EscapeAllEncodes(v: Bytes, lower: nat -> bool)
    ensures Encodes(EscapeAll(v, lower), v)
    decreases |v|
  {
    if v != [] {
      var e := EscapeAll(v, lower);
      EscapeAllEncodes(v[1..], lower);
      assert e[3..] == EscapeAll(v[1..], lower);
      assert EscapeFor(e, v[0]);
    }
  }

  // ----------------------------------------------------------------- scanning

  /** The next separator, or the end. */
  function NextAmp(q: Bytes, i: nat): (a: nat)
    requires i <= |q|
    ensures i <= a <= |q| && (a < |q| ==> q[a] == AMP)
    ensures forall j | i <= j < a :: q[j] != AMP
    decreases |q| - i
  {
    if i == |q| || q[i] == AMP then i else NextAmp(q, i + 1)
  }

  predicate Matches(q: Bytes, name: Bytes) {
    |name| < |q| && q[..|name|] == name && q[|name|] == EQ
  }

  /** The encoded value the scanner finds from the start of a segment. */
  function Scan(q: Bytes, name: Bytes): Option<Bytes>
    decreases |q|
  {
    if q == [] then None
    else if Matches(q, name) then Some(q[|name| + 1..NextAmp(q, |name| + 1)])
    else if NextAmp(q, 0) == |q| then None
    else Scan(q[NextAmp(q, 0) + 1..], name)
  }

  datatype QueryResult = BadArguments | NotFound | Found(value: Bytes)

  function Stripped(q: Bytes): Bytes { if q != [] && q[0] == QMARK then q[1..] else q }

  function QueryParam(query: Bytes, name: Bytes, maxOut: nat): QueryResult {
    if maxOut == 0 || name == [] then BadArguments
    else match Scan(Stripped(query), name)
         case None => NotFound
         case Some(v) => Found(Decode(v, maxOut - 1))
  }

  // ------------------------------------------------------------ the program's loops

  method FindAmp(q: Bytes, from: nat) returns (a: nat)
    requires from <= |q|
    ensures a == NextAmp(q, from)
  {
    a := from;
    while a < |q| && q[a] != AMP
      invariant from <= a <= |q| && NextAmp(q, a) == NextAmp(q, from)
    {
      a := a + 1;
    }
  }

  /** strncmp and the '=' test at a segment start. */
  method TestAt(q: Bytes, p: nat, name: Bytes) returns (hit: bool)
    requires p <= |q|
    ensures hit <==> Matches(q[p..], name)
  {
    if p + |name| >= |q| {
      return false;
    }
    assert q[p..][..|name|] == q[p..p + |name|];
    return q[p..p + |name|] == name && q[p + |name|] == EQ;
  }

  method GetQueryParam(query: Bytes, name: Bytes, maxOut: nat) returns (r: QueryResult)
    ensures r == QueryParam(query, name, maxOut)
  {
    hide Scan, Decode, Matches;
    if maxOut == 0 || |name| == 0 {
      return BadArguments;
    }
    var q := query;
    if |q| > 0 && q[0] == QMARK {
      q := q[1..];
    }
    var p := 0;
    assert q[0..] == q;
    while p < |q|
      invariant p <= |q| && Scan(q[p..], name) == Scan(q, name)
      invariant p > 0 ==> q[p - 1] == AMP
      decreases |q| - p
    {
      ScanAt(q, p, name);
      var hit := TestAt(q, p, name);
      if hit {
        var start := p + |name| + 1;
        var end := FindAmp(q, start);
        var out := DecodeLoop(q[start..end], maxOut);
        return Found(out);
      }
      var amp := FindAmp(q, p);
      if amp == |q| {
        return NotFound;
      }
      p := amp + 1;
    }
    ScanEnd(q, p, name);
    return NotFound;
  }

  lemma ScanEnd(q: Bytes, p: nat, name: Bytes)
    requires p == |q|
    ensures Scan(q[p..], name) == None
  {}

  /** One turn of the scanning loop, in positions of the whole query. */
  lemma ScanAt(q: Bytes, p: nat, name: Bytes)
    requires p < |q|
    ensures Matches(q[p..], name) ==> p + |name| + 1 <= |q|
    ensures Scan(q[p..], name) ==
      if Matches(q[p..], name) then Some(q[p + |name| + 1..NextAmp(q, p + |name| + 1)])
      else if NextAmp(q, p) == |q| then None
      else Scan(q[NextAmp(q, p) + 1..], name)
  {
    hide NextAmp;
    var rest := q[p..];
    NextAmpShift(q, p, 0);
    if Matches(rest, name) {
      NextAmpShift(q, p, |name| + 1);
      var n := |name| + 1;
      assert rest[n..NextAmp(rest, n)] == q[p + n..p + NextAmp(rest, n)];
    } else if NextAmp(q, p) < |q| {
      assert rest[NextAmp(rest, 0) + 1..] == q[NextAmp(q, p) + 1..];
    }
  }

  lemma {:induction false} NextAmpShift(q: Bytes, p: nat, i: nat)
    requires p + i <= |q|
    ensures NextAmp(q, p + i) == p + NextAmp(q[p..], i)
    decreases |q| - i
  {
    if p + i < |q| && q[p + i] != AMP {
      NextAmpShift(q, p, i + 1);
    }
  }

  method DecodeLoop(v: Bytes, maxOut: nat) returns (out: Bytes)
    requires maxOut > 0
    ensures out == Decode(v, maxOut - 1)
  {
    hide Decode, HexValue, IsHex;
    out := [];
    var src := 0;
    assert v[0..] == v;
    while src < |v| && |out| < maxOut - 1
      invariant src <= |v| && |out| <= maxOut - 1
      invariant out + Decode(v[src..], maxOut - 1 - |out|) == Decode(v, maxOut - 1)
      decreases |v| - src
    {
      DecodeAt(v, src, maxOut - 1 - |out|);
      if v[src] == PERCENT {
        if src + 2 < |v| && IsHex(v[src + 1]) && IsHex(v[src + 2]) {
          out := out + [ByteOf(v[src + 1], v[src + 2])];
          src := src + 3;
          continue;
        }
      } else if v[src] == PLUS {
        out := out + [SPACE];
        src := src + 1;
        continue;
      }
      out := out + [v[src]];
      src := src + 1;
    }
    DecodeEnd(v, src, maxOut - 1 - |out|);
  }

  lemma DecodeEnd(v: Bytes, src: nat, room: nat)
    requires src == |v| || (src < |v| && room == 0)
    ensures Decode(v[src..], room) == []
  {}

  /** One turn of the decoding loop. */
  lemma DecodeAt(v: Bytes, src: nat, room: nat)
    requires src < |v| && room > 0
    ensures Decode(v[src..], room) ==
      if v[src] == PERCENT && src + 2 < |v| && IsHex(v[src + 1]) && IsHex(v[src + 2])
      then [ByteOf(v[src + 1], v[src + 2])] + Decode(v[src + 3..], room - 1)
      else if v[src] == PLUS then [SPACE] + Decode(v[src + 1..], room - 1)
      else [v[src]] + Decode(v[src + 1..], room - 1)
  {
    var rest := v[src..];
    assert rest[1..] == v[src + 1..];
    assert |rest| > 2 ==> rest[3..] == v[src + 3..];
  }

  // ---------------------------------------------------------------- the theorems

  function Segments(q: Bytes): (r: seq<Bytes>)
    ensures |r| > 0
    decreases |q|
  {
    var a := NextAmp(q, 0);
    if a == |q| then [q] else [q[..a]] + Segments(q[a + 1..])
  }

  /** The value of the first segment of the form name=value. */
  function FirstValue(segs: seq<Bytes>, name: Bytes): Option<Bytes> {
    if segs == [] then None
    else if Matches(segs[0], name) then Some(segs[0][|name| + 1..])
    else FirstValue(segs[1..], name)
  }

  /** A segment matches when it is the name, an equals sign and a value. */
  lemma MatchesExactly(q: Bytes, name: Bytes)
    ensures Matches(q, name) <==> exists v: Bytes :: q == name + [EQ] + v
  {
    if Matches(q, name) {
      assert q == name + [EQ] + q[|name| + 1..];
    }
    if exists v: Bytes :: q == name + [EQ] + v {
      var v: Bytes :| q == name + [EQ] + v;
      assert q[..|name|] == name;
    }
  }

  lemma MatchesSegment(q: Bytes, name: Bytes)
    requires AMP !in name
    ensures Matches(q, name) <==> Matches(q[..NextAmp(q, 0)], name)
    ensures Matches(q, name) ==> NextAmp(q, |name| + 1) == NextAmp(q, 0)
  {
    var a := NextAmp(q, 0);
    assert |name| < a ==> q[..a][..|name|] == q[..|name|];
    if Matches(q, name) {
      assert forall j | 0 <= j < |name| :: q[j] == q[..|name|][j] && name[j] in name;
      assert a > |name|;
      AmpUnique(q, |name| + 1, a);
    }
  }

  lemma {:induction false} AmpUnique(q: Bytes, i: nat, a: nat)
    requires i <= a <= |q| && (a < |q| ==> q[a] == AMP) && forall j | i <= j < a :: q[j] != AMP
    ensures a == NextAmp(q, i)
    decreases a - i
  {
    if i < a {
      AmpUnique(q, i + 1, a);
    }
  }

  /** The scanner returns the value of the first '&'-separated segment of the form name=value. */
  lemma {:induction false} ScanIsFirstValue(q: Bytes, name: Bytes)
    requires AMP !in name && name != []
    ensures Scan(q, name) == FirstValue(Segments(q), name)
    decreases |q|
  {
    var a := NextAmp(q, 0);
    MatchesSegment(q, name);
    if q != [] {
      if a == |q| {
        assert q[..a] == q && [q][1..] == [];
        assert !Matches(q, name) ==> FirstValue([q], name) == FirstValue([], name);
      } else {
        var rest := Segments(q[a + 1..]);
        assert Segments(q) == [q[..a]] + rest && Segments(q)[1..] == rest;
        ScanIsFirstValue(q[a + 1..], name);
        if Matches(q, name) {
          assert q[..a][|name| + 1..] == q[|name| + 1..a];
        }
      }
    }
  }

  /** A position where the scanner compares the name. */
  predicate StartsSegment(q: Bytes, p: nat) { p < |q| && (p == 0 || q[p - 1] == AMP) }

  ghost predicate MatchesSomewhere(q: Bytes, name: Bytes) {
    exists p: nat :: StartsSegment(q, p) && Matches(q[p..], name)
  }

  /** Later segment starts are those of the text after the first separator. */
  lemma LaterStarts(q: Bytes, name: Bytes)
    requires NextAmp(q, 0) < |q| && !Matches(q, name)
    ensures MatchesSomewhere(q, name) <==> MatchesSomewhere(q[NextAmp(q, 0) + 1..], name)
  {
    hide Matches;
    var a := NextAmp(q, 0);
    var rest := q[a + 1..];
    assert q[0..] == q;
    if MatchesSomewhere(q, name) {
      var p: nat :| StartsSegment(q, p) && Matches(q[p..], name);
      assert p != 0 && p > a;
      assert StartsSegment(rest, p - a - 1) && rest[p - a - 1..] == q[p..];
    }
    if MatchesSomewhere(rest, name) {
      var p: nat :| StartsSegment(rest, p) && Matches(rest[p..], name);
      assert StartsSegment(q, a + 1 + p) && q[a + 1 + p..] == rest[p..];
    }
  }

  lemma OnlyStart(q: Bytes, name: Bytes)
    requires NextAmp(q, 0) == |q|
    ensures MatchesSomewhere(q, name) <==> q != [] && Matches(q, name)
  {
    hide Matches;
    assert q[0..] == q;
    assert q != [] ==> StartsSegment(q, 0);
    assert forall p: nat | StartsSegment(q, p) :: p == 0;
  }

  /** The scanner finds a value exactly when the raw text matches the name at some segment start. */
  lemma {:induction false} ScanFinds(q: Bytes, name: Bytes)
    ensures Scan(q, name).Some? <==> MatchesSomewhere(q, name)
    decreases |q|
  {
    hide Matches, MatchesSomewhere;
    if q != [] && Matches(q, name) {
      MatchesFirst(q, name);
    } else if NextAmp(q, 0) == |q| {
      OnlyStart(q, name);
    } else {
      LaterStarts(q, name);
      ScanFinds(q[NextAmp(q, 0) + 1..], name);
    }
  }

  lemma MatchesFirst(q: Bytes, name: Bytes)
    requires q != [] && Matches(q, name)
    ensures MatchesSomewhere(q, name)
  {
    assert StartsSegment(q, 0) && q[0..] == q;
  }

  lemma NoMatch(seg: Bytes, name: Bytes)
    requires AMP in name && AMP !in seg
    ensures !Matches(seg, name)
  {
    var i :| 0 <= i < |name| && name[i] == AMP;
    if |name| < |seg| {
      assert seg[..|name|][i] == seg[i] != AMP;
    }
  }

  /** No segment contains a separator, so none has a name that does. */
  lemma {:induction false} AmpNameHasNoValue(q: Bytes, name: Bytes)
    requires AMP in name
    ensures FirstValue(Segments(q), name) == None
    decreases |q|
  {
    var a := NextAmp(q, 0);
    var seg := q[..a];
    NoMatch(seg, name);
    if a < |q| {
      AmpNameHasNoValue(q[a + 1..], name);
      assert Segments(q)[1..] == Segments(q[a + 1..]);
    } else {
      assert seg == q && [q][1..] == [] && FirstValue([], name) == None;
    }
  }

  /** The scanner returns the first value of the name, except for names with '&' that match across segments. */
  lemma ScanIsFirstValueExactly(q: Bytes, name: Bytes)
    requires name != []
    ensures Scan(q, name) == FirstValue(Segments(q), name) <==> AMP !in name || !MatchesSomewhere(q, name)
  {
    if AMP in name {
      AmpNameHasNoValue(q, name);
      ScanFinds(q, name);
    } else {
      ScanIsFirstValue(q, name);
    }
  }

  /** The exception occurs: a query of two parameters, a without a value and b with 1, read for the name "a&b". */
  lemma NameAcrossSegments()
    ensures var q: Bytes, name: Bytes := [97, AMP, 98, EQ, 49], [97, AMP, 98];
            Scan(q, name) == Some([49]) && FirstValue(Segments(q), name) == None
  {
    var q: Bytes, name: Bytes := [97, AMP, 98, EQ, 49], [97, AMP, 98];
    AmpNameHasNoValue(q, name);
    assert Matches(q, name) && NextAmp(q, 4) == 5 && q[4..5] == [49];
  }

  /**
   Look-up and decoding together: if the first segment called `name` carries an encoding of
   `v`, the caller gets `v`, cut to the buffer.
   */
  lemma ParameterRecovered(query: Bytes, name: Bytes, e: Bytes, v: Bytes, maxOut: nat)
    requires name != [] && maxOut > 0 && Encodes(e, v)
    requires FirstValue(Segments(Stripped(query)), name) == Some(e)
    ensures QueryParam(query, name, maxOut) == Found(if |v| < maxOut then v else v[..maxOut - 1])
  {
    hide Encodes, Decode, Segments, FirstValue, Scan;
    if AMP in name {
      AmpNameHasNoValue(Stripped(query), name);
    }
    ScanIsFirstValue(Stripped(query), name);
    DecodeUndoesEncoding(e, v, maxOut - 1);
  }

  /** A leading question mark is not part of the query. */
  lemma QuestionMarkIgnored(q: Bytes, name: Bytes, maxOut: nat)
    ensures (q == [] || q[0] != QMARK) ==> QueryParam([QMARK] + q, name, maxOut) == QueryParam(q, name, maxOut)
  {
    assert ([QMARK] + q)[1..] == q;
  }

  /** The three outcomes: bad arguments, and otherwise found exactly when the name stands at a segment start. */
  lemma OutcomeExactly(query: Bytes, name: Bytes, maxOut: nat)
    ensures var q := if query != [] && query[0] == QMARK then query[1..] else query;
            var r := QueryParam(query, name, maxOut);
            && (r.BadArguments? <==> name == [] || maxOut == 0)
            && (r.Found? <==> name != [] && maxOut > 0 && MatchesSomewhere(q, name))
  {
    ScanFinds(Stripped(query), name);
  }
}
