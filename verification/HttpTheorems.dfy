/** What the parsers recover from printed messages, and from messages that arrive in pieces. */
module HttpTheorems {
  import opened Types
  import opened HttpParse
  import opened HttpPrint

  // --------------------------------------------------------------- text of lines

  ghost predicate AllClean(lines: seq<Bytes>) { forall i | 0 <= i < |lines| :: Clean(lines[i]) }

  /** The lines joined by line breaks, without one at the end. */
  function Core(lines: seq<Bytes>): Bytes
    requires lines != []
  {
    if |lines| == 1 then lines[0] else lines[0] + CRLF + Core(lines[1..])
  }

  lemma {:induction false} CatIsCore(lines: seq<Bytes>)
    requires lines != []
    ensures Cat(lines) == Core(lines) + CRLF
  {
    if |lines| == 1 {
      assert lines[1..] == [];
    } else {
      CatIsCore(lines[1..]);
    }
  }

  lemma {:induction false} CoreStartsClean(lines: seq<Bytes>)
    requires lines != [] && AllClean(lines)
    ensures Core(lines) != [] && Core(lines)[0] != CR
  {
    assert Clean(lines[0]);
    assert lines[0][0] in lines[0];
    if |lines| > 1 {
      assert Core(lines)[0] == lines[0][0];
    }
  }

  lemma AtByte(buf: Bytes, pat: Bytes, j: nat)
    requires At(buf, pat, j)
    ensures forall k | 0 <= k < |pat| :: buf[j + k] == pat[k]
  {
    forall k | 0 <= k < |pat| ensures buf[j + k] == pat[k] {
      assert buf[j..j + |pat|][k] == buf[j + k];
    }
  }

  lemma AtBlank(buf: Bytes, j: nat)
    requires At(buf, BLANK, j)
    ensures buf[j] == CR && buf[j + 1] == LF && buf[j + 2] == CR
  {
    var w := buf[j..j + 4];
    assert w[0] == buf[j] && w[1] == buf[j + 1] && w[2] == buf[j + 2];
  }

  lemma NoBreakInside(line: Bytes, rest: Bytes, j: nat, pat: Bytes)
    requires Clean(line) && j < |line| && pat != [] && pat[0] == CR
    ensures !At(line + rest, pat, j)
  {
    var buf := line + rest;
    assert buf[j] == line[j] && line[j] in line;
    if At(buf, pat, j) {
      AtByte(buf, pat, j);
    }
  }

  /** The first line break ends the first line. */
  lemma FirstBreak(line: Bytes, rest: Bytes)
    requires Clean(line)
    ensures Find(line + CRLF + rest, CRLF) == Some(|line|)
  {
    var buf := line + CRLF + rest;
    assert buf == line + (CRLF + rest);
    forall j | 0 <= j < |line| ensures !At(buf, CRLF, j) {
      NoBreakInside(line, CRLF + rest, j, CRLF);
    }
    assert buf[|line|..|line| + 2] == CRLF;
    FindIs(buf, CRLF, |line|);
  }

  lemma NoBreak(line: Bytes)
    requires Clean(line)
    ensures Find(line, CRLF) == None
  {
    forall j: nat ensures !At(line, CRLF, j) {
      if j < |line| {
        assert line + [] == line;
        NoBreakInside(line, [], j, CRLF);
      }
    }
    FindBounds(line, CRLF);
  }

  lemma AtShift(a: Bytes, b: Bytes, pat: Bytes, j: nat)
    requires j >= |a|
    ensures At(a + b, pat, j) <==> At(b, pat, j - |a|)
  {
    if j + |pat| <= |a + b| {
      assert (a + b)[j..j + |pat|] == b[j - |a|..j - |a| + |pat|];
    }
  }

  /** No blank line starts inside the joined lines. */
  lemma {:induction false} NoBlankInside(lines: seq<Bytes>, rest: Bytes, j: nat)
    requires lines != [] && AllClean(lines) && j < |Core(lines)|
    ensures !At(Core(lines) + BLANK + rest, BLANK, j)
    decreases |lines|
  {
    var line := lines[0];
    assert Clean(line);
    var buf := Core(lines) + BLANK + rest;
    if j < |line| {
      var after := if |lines| == 1 then BLANK + rest else CRLF + Core(lines[1..]) + BLANK + rest;
      assert buf == line + after;
      NoBreakInside(line, after, j, BLANK);
    } else {
      var tail := Core(lines[1..]) + BLANK + rest;
      assert AllClean(lines[1..]);
      CoreStartsClean(lines[1..]);
      assert buf == (line + CRLF) + tail;
      if j < |line| + 2 {
        BreakThenText(line, tail, j);
      } else {
        AtShift(line + CRLF, tail, BLANK, j);
        NoBlankInside(lines[1..], rest, j - |line| - 2);
      }
    }
  }

  lemma BreakThenText(line: Bytes, tail: Bytes, j: nat)
    requires |line| <= j < |line| + 2 && tail != [] && tail[0] != CR
    ensures !At((line + CRLF) + tail, BLANK, j)
  {
    var buf := (line + CRLF) + tail;
    assert buf[|line|] == CR && buf[|line| + 1] == LF && buf[|line| + 2] == tail[0];
    if At(buf, BLANK, j) {
      AtBlank(buf, j);
    }
  }

  /** The blank line is found right after the last line. */
  lemma BlankFound(lines: seq<Bytes>, rest: Bytes)
    requires lines != [] && AllClean(lines)
    ensures Find(Cat(lines) + CRLF + rest, BLANK) == Some(|Core(lines)|)
    ensures Cat(lines) + CRLF + rest == Core(lines) + BLANK + rest
  {
    CatIsCore(lines);
    var buf := Core(lines) + BLANK + rest;
    assert CRLF + CRLF == BLANK;
    assert Cat(lines) + CRLF + rest == buf;
    forall j | 0 <= j < |Core(lines)| ensures !At(buf, BLANK, j) {
      NoBlankInside(lines, rest, j);
    }
    assert buf[|Core(lines)|..|Core(lines)| + 4] == BLANK;
    FindIs(buf, BLANK, |Core(lines)|);
  }

  lemma SplitFirst(lines: seq<Bytes>)
    requires |lines| > 1 && AllClean(lines)
    ensures Find(Core(lines), CRLF) == Some(|lines[0]|)
    ensures Core(lines)[..|lines[0]|] == lines[0] && Core(lines)[|lines[0]| + 2..] == Core(lines[1..])
  {
    FirstBreak(lines[0], Core(lines[1..]));
  }

  function Fold(f: Fields, lines: seq<Bytes>): Option<Fields>
    decreases |lines|
  {
    if lines == [] then Some(f)
    else
      var g := Line(f, lines[0]);
      if g.None? then None else Fold(g.value, lines[1..])
  }

  /** The header parser sees every line but the last. */
  lemma {:induction false} LinesSkipLast(f: Fields, lines: seq<Bytes>)
    requires lines != [] && AllClean(lines)
    ensures Lines(f, Core(lines)) == Fold(f, lines[..|lines| - 1])
    decreases |lines|
  {
    hide Line, Find;
    if |lines| == 1 {
      NoBreak(lines[0]);
    } else {
      var front := lines[..|lines| - 1];
      SplitFirst(lines);
      assert AllClean(lines[1..]);
      assert front[0] == lines[0] && front[1..] == lines[1..][..|lines[1..]| - 1];
      if Line(f, lines[0]).Some? {
        LinesSkipLast(Line(f, lines[0]).value, lines[1..]);
      }
    }
  }

  // ----------------------------------------------------------------- header lines

  /** The part of a header key the parser takes for the name. */
  function FieldName(key: Bytes): Bytes { key[..IndexOf(key, COLON)] }

  /** A header as the round trip needs it: one line, and its name not Content-Length in any case. */
  predicate Plain(h: Header) {
    && !IsLengthKey(FieldName(h.key))
    && CR !in h.key && LF !in h.key && CR !in h.value && LF !in h.value
  }

  predicate AllPlain(hs: seq<Header>) { forall h | h in hs :: Plain(h) }

  lemma KeyEnds(key: Bytes, rest: Bytes)
    requires COLON !in key
    ensures IndexOf(key + [COLON] + rest, COLON) == |key|
    ensures (key + [COLON] + rest)[..|key|] == key && (key + [COLON] + rest)[|key| + 1..] == rest
  {
    var s := key + [COLON] + rest;
    forall j | 0 <= j < |key| ensures s[j] != COLON {
      assert s[j] == key[j] && key[j] in key;
    }
    IndexOfIs(s, COLON, |key|);
  }

  /** A line with another name changes no length and is never an error. */
  lemma OtherLine(f: Fields, key: Bytes, value: Bytes)
    requires !IsLengthKey(FieldName(key))
    ensures Line(f, key + SEP + value).Some? && Line(f, key + SEP + value).value.length == f.length
    ensures |Line(f, key + SEP + value).value.headers| <= |f.headers| + 1
  {
    hide IsLengthKey, IndexOf;
    var c := IndexOf(key, COLON);
    var name := FieldName(key);
    var rest := if c == |key| then [SP] + value else key[c + 1..] + SEP + value;
    assert key + SEP + value == name + [COLON] + rest;
    assert COLON !in name;
    KeyEnds(name, rest);
  }

  lemma {:induction false} FoldOther(f: Fields, hs: seq<Header>)
    requires AllPlain(hs)
    ensures Fold(f, HeaderLines(hs)).Some? && Fold(f, HeaderLines(hs)).value.length == f.length
    decreases |hs|
  {
    hide Line, IsLengthKey, FieldName;
    if hs != [] {
      assert hs[0] in hs && Plain(hs[0]);
      OtherLine(f, hs[0].key, hs[0].value);
      assert forall h | h in hs[1..] :: h in hs;
      assert HeaderLines(hs)[1..] == HeaderLines(hs[1..]);
      FoldOther(Line(f, HeaderLine(hs[0])).value, hs[1..]);
    }
  }

  lemma NoSpaceFront(s: Bytes)
    requires s != [] && s[0] != SP
    ensures SkipSpaces([SP] + s) == s
  {
    assert ([SP] + s)[1..] == s;
  }

  lemma DigitsNoWhite(s: Bytes)
    requires s != [] && IsDigit(s[0])
    ensures SkipWhite(s) == s
  {}

  lemma LengthKeyFacts()
    ensures IsLengthKey(LENGTH_KEY) && COLON !in LENGTH_KEY && |LENGTH_KEY| == 14
  {}

  lemma ShortName(key: Bytes)
    requires |key| < 14
    ensures !IsLengthKey(FieldName(key))
  {}

  lemma EightDigits()
    ensures Pow10(8) == 100000000
  {
    assert Pow10(4) == 10000;
  }

  /** The printed Content-Length line sets the length. */
  lemma LengthLineRead(f: Fields, n: nat)
    requires n <= MAX_BODY && |f.headers| < MAX_HEADERS
    ensures Line(f, LengthLine(n)).Some? && Line(f, LengthLine(n)).value.length == n
  {
    hide IsLengthKey, IndexOf, Digits, Pow10;
    var d := Decimal(n);
    LengthKeyFacts();
    assert LengthLine(n) == LENGTH_KEY + [COLON] + ([SP] + d);
    KeyEnds(LENGTH_KEY, [SP] + d);
    assert d[0] in d;
    NoSpaceFront(d);
    DigitsNoWhite(d);
    DecimalRead(n);
    EightDigits();
    DecimalShort(n, 8);
  }

  lemma {:induction false} FoldAppend(f: Fields, a: seq<Bytes>, b: seq<Bytes>)
    ensures Fold(f, a + b) == if Fold(f, a).None? then None else Fold(Fold(f, a).value, b)
    decreases |a|
  {
    hide Line;
    if a == [] {
      assert a + b == b;
    } else {
      assert (a + b)[1..] == a[1..] + b;
      if Line(f, a[0]).Some? {
        FoldAppend(Line(f, a[0]).value, a[1..], b);
      }
    }
  }

  lemma HeadersClean(hs: seq<Header>)
    requires AllPlain(hs)
    ensures AllClean(HeaderLines(hs))
  {
    forall i | 0 <= i < |hs| ensures Clean(HeaderLines(hs)[i]) {
      assert hs[i] in hs && Plain(hs[i]);
      var h := hs[i];
      assert forall c | c in h.key + SEP + h.value :: c in h.key || c in SEP || c in h.value;
    }
  }

  lemma DecimalClean(n: nat)
    ensures Clean(Decimal(n)) && SP !in Decimal(n)
  {}

  // ------------------------------------------------------------------- responses

  predicate GoodReply(r: Reply) {
    && 100 <= r.status <= 999 && |r.body| <= MAX_BODY
    && (r.text.Some? ==> Clean(r.text.value)) && AllPlain(r.headers)
  }

  lemma ReplyLinesClean(r: Reply)
    requires GoodReply(r)
    ensures AllClean(ReplyLines(r)) && |ReplyLines(r)| == 4 + |r.headers|
  {
    hide Clean, StatusLine, TypeLine, LengthLine, HeaderLines;
    HeadersClean(r.headers);
    StatusLineClean(r);
    TypeLineClean(r.kind);
    LengthLineClean(|r.body|);
    CloseLineClean();
    forall i | 0 <= i < |ReplyLines(r)| ensures Clean(ReplyLines(r)[i]) {
      if i >= 4 { assert ReplyLines(r)[i] == HeaderLines(r.headers)[i - 4]; }
    }
  }

  lemma StatusLineClean(r: Reply)
    requires GoodReply(r)
    ensures Clean(StatusLine(r))
  {
    DecimalClean(r.status);
    assert forall c | c in StatusLine(r) :: c in HTTP_SP || c in Decimal(r.status) || c == SP || c in TextOf(r);
  }

  lemma TypeLineClean(k: ContentType)
    ensures Clean(TypeLine(k))
  {
    assert forall c | c in TypeLine(k) :: c in TYPE_KEY || c in SEP || c in TypeStr(k);
  }

  lemma LengthLineClean(n: nat)
    ensures Clean(LengthLine(n))
  {
    DecimalClean(n);
    assert forall c | c in LengthLine(n) :: c in LENGTH_KEY || c in SEP || c in Decimal(n);
  }

  lemma CloseLineClean()
    ensures Clean(CLOSE_LINE)
  {}

  lemma SpaceEnds(word: Bytes, rest: Bytes)
    requires SP !in word
    ensures IndexOf(word + [SP] + rest, SP) == |word|
    ensures (word + [SP] + rest)[..|word|] == word && (word + [SP] + rest)[|word| + 1..] == rest
  {
    var s := word + [SP] + rest;
    forall j | 0 <= j < |word| ensures s[j] != SP {
      assert s[j] == word[j] && word[j] in word;
    }
    IndexOfIs(s, SP, |word|);
  }

  lemma AtoiDigits(a: byte, b: byte, c: byte)
    requires IsDigit(a) && IsDigit(b) && IsDigit(c)
    ensures Atoi([a, b, c]) == 100 * (a - 48) + 10 * (b - 48) + (c - 48)
  {
    var d: Bytes := [a, b, c];
    assert d[1..] == [b, c] && [b, c][1..] == [c] && [c][1..] == [];
    assert SignedDigits([c], 10 * (a - 48) + (b - 48)) == 100 * (a - 48) + 10 * (b - 48) + (c - 48);
    assert SignedDigits([b, c], a - 48) == SignedDigits([c], 10 * (a - 48) + (b - 48));
  }

  lemma AtoiOfThree(n: nat)
    requires 100 <= n <= 999
    ensures Atoi(Decimal(n)) == n && |Decimal(n)| == 3
  {
    hide Atoi, Decimal;
    ThreeDigits(n);
    AtoiDigits(48 + n / 100, 48 + n / 10 % 10, 48 + n % 10);
  }

  /** The lines after Content-Length, without the last one, leave the length alone. */
  lemma TailFields(f: Fields, hs: seq<Header>)
    requires AllPlain(hs)
    ensures var rest := [CLOSE_LINE] + HeaderLines(hs);
            var g := Fold(f, rest[..|hs|]);
            g.Some? && g.value.length == f.length
  {
    hide Line, IsLengthKey, FieldName, Plain;
    var rest := [CLOSE_LINE] + HeaderLines(hs);
    if hs == [] {
      assert rest[..0] == [];
    } else {
      var front := hs[..|hs| - 1];
      HeaderFront(hs);
      assert rest[..|hs|] == [CLOSE_LINE] + HeaderLines(front);
      assert rest[..|hs|][1..] == HeaderLines(front);
      ShortName(CLOSE_KEY);
      OtherLine(f, CLOSE_KEY, CLOSE_VALUE);
      assert forall h | h in front :: h in hs;
      FoldOther(Line(f, CLOSE_LINE).value, front);
    }
  }

  /** The fields the parser reads from a printed response give back the body length. */
  lemma ReplyFields(r: Reply)
    requires GoodReply(r)
    ensures var lines := ReplyLines(r)[1..];
            var f := Fold(Fields([], 0), lines[..|lines| - 1]);
            f.Some? && f.value.length == |r.body|
  {
    hide Line, IsLengthKey, FieldName, Plain, Fold, HeaderLine;
    var lines, start := ReplyLines(r)[1..], Fields([], 0);
    var t, l := TypeLine(r.kind), LengthLine(|r.body|);
    var rest := [CLOSE_LINE] + HeaderLines(r.headers);
    ShortName(TYPE_KEY);
    OtherLine(start, TYPE_KEY, TypeStr(r.kind));
    LengthLineRead(Line(start, t).value, |r.body|);
    TwoLines(start, t, l);
    assert lines[..|lines| - 1] == [t, l] + rest[..|r.headers|];
    FoldAppend(start, [t, l], rest[..|r.headers|]);
    TailFields(Line(Line(start, t).value, l).value, r.headers);
  }

  lemma TwoLines(f: Fields, a: Bytes, b: Bytes)
    requires Line(f, a).Some? && Line(Line(f, a).value, b).Some?
    ensures Fold(f, [a, b]) == Line(Line(f, a).value, b)
  {
    hide Line;
    assert [a, b][1..] == [b] && [b][1..] == [];
    var g := Line(f, a).value;
    assert Fold(Line(g, b).value, []) == Line(g, b);
    assert Fold(g, [b]) == Line(g, b);
  }

  lemma HeaderFront(hs: seq<Header>)
    requires hs != []
    ensures HeaderLines(hs)[..|hs| - 1] == HeaderLines(hs[..|hs| - 1])
  {}

  /** The fields of a printed response, in order. */
  function PrintedFields(r: Reply): (hs: seq<Header>)
    ensures |hs| == 3 + |r.headers|
  {
    [Header(TYPE_KEY, TypeStr(r.kind)), Header(LENGTH_KEY, Decimal(|r.body|)), Header(CLOSE_KEY, CLOSE_VALUE)]
      + r.headers
  }

  lemma ReplyLinesAreFields(r: Reply)
    ensures ReplyLines(r)[1..] == HeaderLines(PrintedFields(r))
  {
    OwnLines(r);
    LinesOfThree(Header(TYPE_KEY, TypeStr(r.kind)), Header(LENGTH_KEY, Decimal(|r.body|)),
                 Header(CLOSE_KEY, CLOSE_VALUE), r.headers);
  }

  lemma OwnLines(r: Reply)
    ensures TypeLine(r.kind) == HeaderLine(Header(TYPE_KEY, TypeStr(r.kind)))
    ensures LengthLine(|r.body|) == HeaderLine(Header(LENGTH_KEY, Decimal(|r.body|)))
    ensures CLOSE_LINE == HeaderLine(Header(CLOSE_KEY, CLOSE_VALUE))
  {}

  lemma LinesOfThree(a: Header, b: Header, c: Header, hs: seq<Header>)
    ensures HeaderLines([a, b, c] + hs) == [HeaderLine(a), HeaderLine(b), HeaderLine(c)] + HeaderLines(hs)
  {
    hide HeaderLine;
    var all := [a, b, c] + hs;
    assert forall i | 0 <= i < |hs| :: all[i + 3] == hs[i];
  }

  lemma ReplyHead(r: Reply)
    requires GoodReply(r)
    ensures var p := ResponseHead(Core(ReplyLines(r)));
            && p.Some? && p.value.1 == |r.body|
            && p.value.0.status == r.status && p.value.0.text == Some(TextOf(r))
            && p.value.0.kind == OctetStream
            && Fold(Fields([], 0), HeaderLines(PrintedFields(r)[..|r.headers| + 2])).Some?
            && p.value.0.headers == Fold(Fields([], 0), HeaderLines(PrintedFields(r)[..|r.headers| + 2])).value.headers
  {
    hide Lines, Fold, Find, IndexOf, Atoi, Core;
    var lines := ReplyLines(r);
    ReplyLinesClean(r);
    SplitFirst(lines);
    assert AllClean(lines[1..]);
    LinesSkipLast(Fields([], 0), lines[1..]);
    ReplyFields(r);
    ReplyLinesAreFields(r);
    HeaderFront(PrintedFields(r));
    StatusLineRead(r);
  }

  lemma StatusLineRead(r: Reply)
    requires GoodReply(r)
    ensures var line := StatusLine(r);
            && IndexOf(line, SP) == 8 < |line|
            && var rest := line[9..];
               && IndexOf(rest, SP) == 3 < |rest| && Atoi(rest[..3]) == r.status
               && rest[4..] == TextOf(r) && TextOf(r) != []
  {
    hide IndexOf, Atoi;
    var d, text := Decimal(r.status), TextOf(r);
    AtoiOfThree(r.status);
    DecimalClean(r.status);
    assert HTTP_SP == HTTP_SP[..8] + [SP];
    assert StatusLine(r) == HTTP_SP[..8] + [SP] + (d + [SP] + text);
    SpaceEnds(HTTP_SP[..8], d + [SP] + text);
    SpaceEnds(d, text);
  }

  /**
   Response round trip: parsing the printed bytes recovers status, text and body, whatever
   follows on the connection; the content type comes back only if it is the default one.
   */
  lemma ResponseRoundTrip(r: Reply, more: Bytes)
    requires GoodReply(r)
    ensures var p := ParseResponse(PrintReply(r) + more);
            && p.Ok? && p.value.status == r.status && p.value.body == r.body
            && p.value.text == (if r.text.None? then Some([79, 75]) else r.text)
            && (p.value.kind == r.kind <==> r.kind == OctetStream)
            && ResponseHead(Core(ReplyLines(r))).Some?
            && p.value.headers == ResponseHead(Core(ReplyLines(r))).value.0.headers
  {
    hide Find, ResponseHead, Core, Cat, ReplyLines;
    var lines := ReplyLines(r);
    ReplyLinesClean(r);
    BlankFound(lines, r.body + more);
    var data := PrintReply(r) + more;
    assert data == Cat(lines) + CRLF + (r.body + more);
    assert data == Core(lines) + BLANK + (r.body + more);
    assert data[..|Core(lines)|] == Core(lines) && data[|Core(lines)| + 4..] == r.body + more;
    ReplyHead(r);
    assert (r.body + more)[..|r.body|] == r.body;
  }

  // -------------------------------------------------------------------- requests

  predicate GoodCall(q: Call) {
    && |q.path| < MAX_PATH_SIZE && SP !in q.path && CR !in q.path && LF !in q.path
    && |q.body| <= MAX_BODY && AllPlain(q.headers)
  }

  lemma VerbFacts(m: Method)
    ensures SP !in VerbStr(m) && VerbOf(VerbStr(m)) == m && Clean(VerbStr(m))
  {}

  lemma CallLinesClean(q: Call)
    requires GoodCall(q)
    ensures AllClean(CallLines(q)) && |CallLines(q)| == 2 + |q.headers|
  {
    HeadersClean(q.headers);
    DecimalClean(|q.body|);
    VerbFacts(q.verb);
    assert Clean(RequestLine(q)) by {
      assert forall c | c in RequestLine(q) :: c in VerbStr(q.verb) || c == SP || c in q.path || c in SP_HTTP;
    }
    LengthLineClean(|q.body|);
    forall i | 0 <= i < |CallLines(q)| ensures Clean(CallLines(q)[i]) {
      if i >= 2 { assert CallLines(q)[i] == HeaderLines(q.headers)[i - 2]; }
    }
  }

  /** The length survives exactly when another header line follows it. */
  lemma CallFields(q: Call)
    requires GoodCall(q)
    ensures var lines := CallLines(q)[1..];
            var f := Fold(Fields([], 0), lines[..|q.headers|]);
            f.Some? && f.value.length == if q.headers == [] then 0 else |q.body|
  {
    hide Line, IsLengthKey, FieldName, Plain, HeaderLine;
    var start := Fields([], 0);
    if q.headers == [] {
      assert CallLines(q)[1..][..0] == [] && Fold(start, []) == Some(start);
    } else {
      hide Fold;
      CallLinesCut(q);
      LengthThenOthers(start, |q.body|, q.headers[..|q.headers| - 1], q.headers);
    }
  }

  lemma CallLinesCut(q: Call)
    requires q.headers != []
    ensures CallLines(q)[1..][..|q.headers|]
         == [LengthLine(|q.body|)] + HeaderLines(q.headers[..|q.headers| - 1])
  {
    hide HeaderLines, LengthLine, RequestLine;
    HeaderFront(q.headers);
  }

  lemma LengthThenOthers(f: Fields, n: nat, front: seq<Header>, hs: seq<Header>)
    requires n <= MAX_BODY && |f.headers| < MAX_HEADERS && AllPlain(hs) && front <= hs
    ensures var g := Fold(f, [LengthLine(n)] + HeaderLines(front));
            g.Some? && g.value.length == n
  {
    hide Line, IsLengthKey, FieldName, Plain, HeaderLine;
    LengthLineRead(f, n);
    assert ([LengthLine(n)] + HeaderLines(front))[1..] == HeaderLines(front);
    assert forall h | h in front :: h in hs;
    FoldOther(Line(f, LengthLine(n)).value, front);
  }

  lemma RequestLineRead(q: Call)
    requires GoodCall(q)
    ensures var line := RequestLine(q);
            var s1 := IndexOf(line, SP);
            && s1 < |line| && VerbOf(line[..s1]) == q.verb
            && var rest := line[s1 + 1..];
               && IndexOf(rest, SP) == |q.path| < |rest| && rest[..|q.path|] == q.path
  {
    hide IndexOf, VerbOf;
    VerbFacts(q.verb);
    var tail := SP_HTTP[1..];
    assert SP_HTTP == [SP] + tail;
    assert RequestLine(q) == VerbStr(q.verb) + [SP] + (q.path + [SP] + tail);
    SpaceEnds(VerbStr(q.verb), q.path + [SP] + tail);
    SpaceEnds(q.path, tail);
  }

  /** The fields of a printed request, in order. */
  function CallHeaders(q: Call): (hs: seq<Header>)
    ensures |hs| == 1 + |q.headers|
  {
    [Header(LENGTH_KEY, Decimal(|q.body|))] + q.headers
  }

  lemma CallLinesAreFields(q: Call)
    ensures CallLines(q)[1..] == HeaderLines(CallHeaders(q))
  {
    var hs := CallHeaders(q);
    var lines := CallLines(q)[1..];
    forall i | 0 <= i < |lines| ensures lines[i] == HeaderLines(hs)[i] {
      if i >= 1 { assert hs[i] == q.headers[i - 1]; }
    }
  }

  /** How the parser cuts the printed head up, and what it makes of the fields. */
  lemma CallFold(q: Call)
    requires GoodCall(q)
    ensures var head, n := Core(CallLines(q)), |RequestLine(q)|;
            var g := Fold(Fields([], 0), HeaderLines(CallHeaders(q)[..|q.headers|]));
            && Find(head, CRLF) == Some(n) && n + 2 <= |head| && head[..n] == RequestLine(q)
            && Lines(Fields([], 0), head[n + 2..]) == g
            && g.Some? && g.value.length == if q.headers == [] then 0 else |q.body|
  {
    hide Lines, Fold, Find, Core, HeaderLines, Clean, Plain;
    var lines := CallLines(q);
    CallLinesClean(q);
    SplitFirst(lines);
    assert AllClean(lines[1..]);
    LinesSkipLast(Fields([], 0), lines[1..]);
    CallFields(q);
    CallLinesAreFields(q);
    HeaderFront(CallHeaders(q));
    FindBounds(Core(lines), CRLF);
  }

  lemma CallHead(q: Call)
    requires GoodCall(q)
    ensures var p := RequestHead(Core(CallLines(q)));
            && p.Some? && p.value.verb == q.verb && p.value.path == q.path
            && p.value.contentLength == (if q.headers == [] then 0 else |q.body|)
            && Fold(Fields([], 0), HeaderLines(CallHeaders(q)[..|q.headers|])).Some?
            && p.value.headers == Fold(Fields([], 0), HeaderLines(CallHeaders(q)[..|q.headers|])).value.headers
  {
    hide Lines, Fold, Find, IndexOf, Core, VerbOf, HeaderLines, CallLines, CallHeaders, AllPlain;
    CallFold(q);
    RequestLineRead(q);
  }

  /**
   Request round trip: method and path always come back; the body comes back exactly when
   it is empty, or the method is POST and at least one header follows Content-Length.
   */
  lemma RequestRoundTrip(q: Call, more: Bytes)
    requires GoodCall(q)
    ensures var p := ParseRequest(PrintCall(q) + more);
            && p.Ok? && p.value.verb == q.verb && p.value.path == q.path
            && (p.value.body == q.body <==> q.body == [] || (q.verb == POST && q.headers != []))
            && RequestHead(Core(CallLines(q))).Some?
            && p.value.headers == RequestHead(Core(CallLines(q))).value.headers
  {
    hide Find, RequestHead, Core, Cat, CallLines;
    var lines := CallLines(q);
    CallLinesClean(q);
    BlankFound(lines, q.body + more);
    var data := PrintCall(q) + more;
    assert data == Cat(lines) + CRLF + (q.body + more);
    assert data == Core(lines) + BLANK + (q.body + more);
    assert data[..|Core(lines)|] == Core(lines) && data[|Core(lines)| + 4..] == q.body + more;
    CallHead(q);
    assert (q.body + more)[..|q.body|] == q.body;
  }

  // --------------------------------------------------------------- header fields

  /** A field the parser gives back as it was printed. */
  predicate Recoverable(h: Header) {
    && COLON !in h.key && |h.key| < MAX_HEADER_SIZE && |h.value| < MAX_HEADER_SIZE
    && (h.value == [] || h.value[0] != SP)
    && (IsLengthKey(h.key) ==> LengthOf(h.value).Some?)
  }

  function FirstTwenty(hs: seq<Header>): seq<Header> { if |hs| <= MAX_HEADERS then hs else hs[..MAX_HEADERS] }

  lemma LineBack(f: Fields, h: Header)
    requires Recoverable(h)
    ensures Line(f, HeaderLine(h)).Some?
    ensures Line(f, HeaderLine(h)).value.headers
         == if |f.headers| < MAX_HEADERS then f.headers + [h] else f.headers
  {
    hide IsLengthKey, IndexOf, LengthOf;
    assert HeaderLine(h) == h.key + [COLON] + ([SP] + h.value);
    KeyEnds(h.key, [SP] + h.value);
    if h.value == [] {
      assert SkipSpaces([SP]) == SkipSpaces([]) == [];
      assert [SP] + h.value == [SP];
    } else {
      NoSpaceFront(h.value);
    }
  }

  lemma TwentyFront(a: seq<Header>, hs: seq<Header>)
    requires |a| <= MAX_HEADERS && hs != []
    ensures var b := if |a| < MAX_HEADERS then a + [hs[0]] else a;
            |b| <= MAX_HEADERS && FirstTwenty(b + hs[1..]) == FirstTwenty(a + hs)
  {
    if |a| < MAX_HEADERS {
      assert a + [hs[0]] + hs[1..] == a + hs;
    } else {
      assert FirstTwenty(a + hs[1..]) == a == FirstTwenty(a + hs);
    }
  }

  /** The parser stores the first twenty recoverable fields of the lines it sees. */
  lemma {:induction false} FoldBack(f: Fields, hs: seq<Header>)
    requires |f.headers| <= MAX_HEADERS && forall i | 0 <= i < |hs| :: Recoverable(hs[i])
    ensures Fold(f, HeaderLines(hs)).Some?
    ensures Fold(f, HeaderLines(hs)).value.headers == FirstTwenty(f.headers + hs)
    decreases |hs|
  {
    if hs == [] {
      assert f.headers + hs == f.headers;
    } else {
      hide Line, Recoverable, FirstTwenty, HeaderLine;
      LineBack(f, hs[0]);
      TwentyFront(f.headers, hs);
      assert HeaderLines(hs)[1..] == HeaderLines(hs[1..]);
      FoldBack(Line(f, HeaderLine(hs[0])).value, hs[1..]);
    }
  }

  lemma LengthRecoverable(n: nat)
    requires n <= MAX_BODY
    ensures Recoverable(Header(LENGTH_KEY, Decimal(n)))
  {
    hide IsLengthKey, Digits, Pow10;
    var d := Decimal(n);
    LengthKeyFacts();
    assert d[0] in d;
    DigitsNoWhite(d);
    DecimalRead(n);
    EightDigits();
    DecimalShort(n, 8);
  }

  lemma FixedRecoverable(k: ContentType)
    ensures Recoverable(Header(TYPE_KEY, TypeStr(k))) && Recoverable(Header(CLOSE_KEY, CLOSE_VALUE))
  {}

  /** The fields of a printed response come back in order, all but the last one and at most twenty. */
  lemma ResponseFieldsRecovered(r: Reply, more: Bytes)
    requires GoodReply(r) && forall i | 0 <= i < |r.headers| :: Recoverable(r.headers[i])
    ensures var p := ParseResponse(PrintReply(r) + more);
            p.Ok? && p.value.headers == FirstTwenty(PrintedFields(r)[..|PrintedFields(r)| - 1])
  {
    hide ParseResponse, ResponseHead, Core, ReplyLines, Recoverable, Fold, HeaderLines;
    ResponseRoundTrip(r, more);
    ReplyHead(r);
    var hs := PrintedFields(r)[..|r.headers| + 2];
    LengthRecoverable(|r.body|);
    FixedRecoverable(r.kind);
    assert forall i | 3 <= i < |hs| :: hs[i] == r.headers[i - 3];
    FoldBack(Fields([], 0), hs);
    assert [] + hs == hs;
  }

  /** So do those of a printed request. */
  lemma RequestFieldsRecovered(q: Call, more: Bytes)
    requires GoodCall(q) && forall i | 0 <= i < |q.headers| :: Recoverable(q.headers[i])
    ensures var p := ParseRequest(PrintCall(q) + more);
            p.Ok? && p.value.headers == FirstTwenty(CallHeaders(q)[..|CallHeaders(q)| - 1])
  {
    hide ParseRequest, RequestHead, Core, CallLines, Recoverable, Fold, HeaderLines;
    RequestRoundTrip(q, more);
    CallHead(q);
    var hs := CallHeaders(q)[..|q.headers|];
    LengthRecoverable(|q.body|);
    assert forall i | 1 <= i < |hs| :: hs[i] == q.headers[i - 1];
    FoldBack(Fields([], 0), hs);
    assert [] + hs == hs;
  }

  // ------------------------------------------------------------------- streaming

  lemma AtPrefix(data: Bytes, n: nat, pat: Bytes, j: nat)
    requires n <= |data|
    ensures At(data[..n], pat, j) <==> At(data, pat, j) && j + |pat| <= n
  {
    if j + |pat| <= n {
      assert data[..n][j..j + |pat|] == data[j..j + |pat|];
    }
  }

  /** Cutting the input off keeps the blank line where it was, or removes it. */
  lemma FindInPrefix(data: Bytes, n: nat, pat: Bytes)
    requires n <= |data| && Find(data, pat).Some? && pat != []
    ensures Find(data[..n], pat) == if Find(data, pat).value + |pat| <= n then Find(data, pat) else None
  {
    var h := Find(data, pat).value;
    forall j: nat ensures At(data[..n], pat, j) <==> At(data, pat, j) && j + |pat| <= n {
      AtPrefix(data, n, pat, j);
    }
    if h + |pat| <= n {
      FindIs(data[..n], pat, h);
    } else {
      FindBounds(data[..n], pat);
    }
  }

  /** What both parsers do before they look at anything but the length of the body. */
  datatype Framed = BadFrame | NeedMore | Whole(head: Bytes, body: Bytes)

  function Framing(data: Bytes, size: Bytes -> Option<nat>): Framed {
    if data == [] then BadFrame
    else match Find(data, BLANK)
         case None => if |data| >= MAX_HEAD then BadFrame else NeedMore
         case Some(h) =>
           match size(data[..h])
           case None => BadFrame
           case Some(n) => if |data| < h + 4 + n then NeedMore else Whole(data[..h], data[h + 4..h + 4 + n])
  }

  /** Where a whole message ends. */
  function FrameEnd(data: Bytes, size: Bytes -> Option<nat>): nat
    requires Framing(data, size).Whole?
  {
    |Framing(data, size).head| + 4 + |Framing(data, size).body|
  }

  lemma FrameAppend(data: Bytes, more: Bytes, size: Bytes -> Option<nat>)
    requires Framing(data, size).Whole?
    ensures Framing(data + more, size) == Framing(data, size)
    ensures FrameEnd(data, size) <= |data|
  {
    var all := data + more;
    var h := Find(data, BLANK).value;
    assert all[..|data|] == data;
    assert At(all, BLANK, h) by { assert all[h..h + 4] == data[h..h + 4]; }
    forall j | 0 <= j < h ensures !At(all, BLANK, j) {
      AtPrefix(all, |data|, BLANK, j);
    }
    FindIs(all, BLANK, h);
    assert all[..h] == data[..h];
    var n := size(data[..h]).value;
    assert all[h + 4..h + 4 + n] == data[h + 4..h + 4 + n];
  }

  lemma FramePrefix(data: Bytes, n: nat, size: Bytes -> Option<nat>)
    requires Framing(data, size).Whole? && 0 < n <= |data|
    ensures n >= FrameEnd(data, size) ==> Framing(data[..n], size) == Framing(data, size)
    ensures n < FrameEnd(data, size) ==>
      Framing(data[..n], size) == if n < |Framing(data, size).head| + 4 && n >= MAX_HEAD then BadFrame else NeedMore
  {
    var h := Find(data, BLANK).value;
    FindInPrefix(data, n, BLANK);
    if h + 4 <= n {
      var k := size(data[..h]).value;
      assert data[..n][..h] == data[..h];
      if n >= FrameEnd(data, size) {
        assert data[..n][h + 4..h + 4 + k] == data[h + 4..h + 4 + k];
      }
    }
  }

  function RequestSize(head: Bytes): Option<nat> {
    if RequestHead(head).None? then None else Some(BodySize(RequestHead(head).value))
  }

  function ResponseSize(head: Bytes): Option<nat> {
    if ResponseHead(head).None? then None else Some(ResponseHead(head).value.1)
  }

  lemma RequestIsFramed(data: Bytes)
    ensures ParseRequest(data) ==
      match Framing(data, RequestSize)
      case BadFrame => Error
      case NeedMore => Incomplete
      case Whole(head, body) => if RequestHead(head).Some? then Ok(RequestHead(head).value.(body := body)) else Error
    ensures Framing(data, RequestSize).Whole? ==> RequestHead(Framing(data, RequestSize).head).Some?
  {
    hide RequestHead;
    if data != [] && Find(data, BLANK).Some? {
      FindBounds(data, BLANK);
      var h := Find(data, BLANK).value;
      if RequestHead(data[..h]).Some? && |data| >= h + 4 + BodySize(RequestHead(data[..h]).value) {
        var n := BodySize(RequestHead(data[..h]).value);
        assert data[h + 4..][..n] == data[h + 4..h + 4 + n];
      }
    }
  }

  lemma ResponseIsFramed(data: Bytes)
    ensures ParseResponse(data) ==
      match Framing(data, ResponseSize)
      case BadFrame => Error
      case NeedMore => Incomplete
      case Whole(head, body) =>
        if ResponseHead(head).Some? then Ok(ResponseHead(head).value.0.(body := body)) else Error
    ensures Framing(data, ResponseSize).Whole? ==> ResponseHead(Framing(data, ResponseSize).head).Some?
  {
    hide ResponseHead;
    if data != [] && Find(data, BLANK).Some? {
      FindBounds(data, BLANK);
      var h := Find(data, BLANK).value;
      if ResponseHead(data[..h]).Some? && |data| >= h + 4 + ResponseHead(data[..h]).value.1 {
        var n := ResponseHead(data[..h]).value.1;
        assert data[h + 4..][..n] == data[h + 4..h + 4 + n];
      }
    }
  }

  /** Where an accepted request, or response, ends. */
  function RequestEnd(data: Bytes): nat
    requires ParseRequest(data).Ok?
  {
    Find(data, BLANK).value + 4 + |ParseRequest(data).value.body|
  }

  function ResponseEnd(data: Bytes): nat
    requires ParseResponse(data).Ok?
  {
    Find(data, BLANK).value + 4 + |ParseResponse(data).value.body|
  }

  /** Bytes after the message never change the result. */
  lemma AppendingIsHarmless(data: Bytes, more: Bytes)
    ensures ParseRequest(data).Ok? ==> ParseRequest(data + more) == ParseRequest(data)
    ensures ParseResponse(data).Ok? ==> ParseResponse(data + more) == ParseResponse(data)
  {
    hide Framing, ParseRequest, ParseResponse, RequestHead, ResponseHead;
    RequestIsFramed(data);
    RequestIsFramed(data + more);
    ResponseIsFramed(data);
    ResponseIsFramed(data + more);
    if ParseRequest(data).Ok? {
      FrameAppend(data, more, RequestSize);
    }
    if ParseResponse(data).Ok? {
      FrameAppend(data, more, ResponseSize);
    }
  }

  /** From the end of the message on, every prefix gives the same result; before it, none does. */
  lemma PrefixResult(data: Bytes, n: nat)
    requires ParseRequest(data).Ok? && 0 < n <= |data|
    ensures n >= RequestEnd(data) ==> ParseRequest(data[..n]) == ParseRequest(data)
    ensures n < RequestEnd(data) ==>
      ParseRequest(data[..n]) == if n < Find(data, BLANK).value + 4 && n >= MAX_HEAD then Error else Incomplete
  {
    hide RequestHead;
    RequestIsFramed(data);
    RequestIsFramed(data[..n]);
    FindBounds(data, BLANK);
    FramePrefix(data, n, RequestSize);
  }

  /** The same for responses. */
  lemma ResponsePrefixResult(data: Bytes, n: nat)
    requires ParseResponse(data).Ok? && 0 < n <= |data|
    ensures n >= ResponseEnd(data) ==> ParseResponse(data[..n]) == ParseResponse(data)
    ensures n < ResponseEnd(data) ==>
      ParseResponse(data[..n]) == if n < Find(data, BLANK).value + 4 && n >= MAX_HEAD then Error else Incomplete
  {
    hide ResponseHead;
    ResponseIsFramed(data);
    ResponseIsFramed(data[..n]);
    FindBounds(data, BLANK);
    FramePrefix(data, n, ResponseSize);
  }

  /**
   Streaming: an accepted request can be fed in pieces, with INCOMPLETE until it is whole
   and the final result from then on, exactly when its head, blank line included, is at
   most 8192 bytes.
   */
  lemma StreamsExactlyUpToHeadLimit(data: Bytes)
    requires ParseRequest(data).Ok?
    ensures (forall n | 0 < n <= |data| ::
               ParseRequest(data[..n]) == if n < RequestEnd(data) then Incomplete else ParseRequest(data))
            <==> Find(data, BLANK).value + 4 <= MAX_HEAD
  {
    hide ParseRequest, Find;
    RequestEndsInside(data);
    forall n | 0 < n <= |data|
      ensures n >= RequestEnd(data) ==> ParseRequest(data[..n]) == ParseRequest(data)
      ensures n < RequestEnd(data) ==>
        ParseRequest(data[..n]) == if n < Find(data, BLANK).value + 4 && n >= MAX_HEAD then Error else Incomplete
    {
      PrefixResult(data, n);
    }
    if Find(data, BLANK).value + 4 > MAX_HEAD {
      assert ParseRequest(data[..MAX_HEAD]) == Error;
    }
  }

  lemma RequestEndsInside(data: Bytes)
    requires ParseRequest(data).Ok?
    ensures Find(data, BLANK).Some? && Find(data, BLANK).value + 4 <= RequestEnd(data) <= |data|
  {
    hide RequestHead;
    FindBounds(data, BLANK);
  }

  /** The same for responses. */
  lemma ResponsesStreamExactlyUpToHeadLimit(data: Bytes)
    requires ParseResponse(data).Ok?
    ensures (forall n | 0 < n <= |data| ::
               ParseResponse(data[..n]) == if n < ResponseEnd(data) then Incomplete else ParseResponse(data))
            <==> Find(data, BLANK).value + 4 <= MAX_HEAD
  {
    hide ParseResponse, Find;
    ResponseEndsInside(data);
    forall n | 0 < n <= |data|
      ensures n >= ResponseEnd(data) ==> ParseResponse(data[..n]) == ParseResponse(data)
      ensures n < ResponseEnd(data) ==>
        ParseResponse(data[..n]) == if n < Find(data, BLANK).value + 4 && n >= MAX_HEAD then Error else Incomplete
    {
      ResponsePrefixResult(data, n);
    }
    if Find(data, BLANK).value + 4 > MAX_HEAD {
      assert ParseResponse(data[..MAX_HEAD]) == Error;
    }
  }

  lemma ResponseEndsInside(data: Bytes)
    requires ParseResponse(data).Ok?
    ensures Find(data, BLANK).Some? && Find(data, BLANK).value + 4 <= ResponseEnd(data) <= |data|
  {
    hide ResponseHead;
    FindBounds(data, BLANK);
  }

  /** A message head past the limit exists: one long header line does it. */
  function LongHeader(): Header { Header([97], seq(9000, _ => 97)) }

  lemma LongHeaderPlain()
    ensures AllPlain([LongHeader()])
  {
    assert FieldName([97]) == [97];
  }

  lemma CoreIsLong(lines: seq<Bytes>, i: nat)
    requires i < |lines|
    ensures |Core(lines)| >= |lines[i]|
    decreases |lines|
  {
    if i > 0 {
      CoreIsLong(lines[1..], i - 1);
    }
  }

  /** So some request parses whole and is rejected in pieces. */
  lemma SomeRequestDoesNotStream() returns (data: Bytes)
    ensures ParseRequest(data).Ok? && |data| > MAX_HEAD && ParseRequest(data[..MAX_HEAD]) == Error
  {
    hide Find, ParseRequest, Core, Cat, CallLines;
    LongHeaderPlain();
    var q := Call(GET, [47], [LongHeader()], []);
    data := PrintCall(q);
    assert data + [] == data;
    RequestRoundTrip(q, []);
    CallHeadIsLong(q);
    PrefixResult(data, MAX_HEAD);
  }

  lemma CallHeadIsLong(q: Call)
    requires GoodCall(q) && q.headers == [LongHeader()] && q.body == []
    ensures Find(PrintCall(q), BLANK).Some? && Find(PrintCall(q), BLANK).value > 9000
    ensures |PrintCall(q)| > 9000
  {
    hide Core, Cat, Find;
    var lines := CallLines(q);
    CallLinesClean(q);
    BlankFound(lines, q.body);
    assert lines[2] == HeaderLines(q.headers)[0] == HeaderLine(LongHeader());
    CoreIsLong(lines, 2);
  }

  /** And some response. */
  lemma SomeResponseDoesNotStream() returns (data: Bytes)
    ensures ParseResponse(data).Ok? && |data| > MAX_HEAD && ParseResponse(data[..MAX_HEAD]) == Error
  {
    hide Find, ParseResponse, Core, Cat, ReplyLines;
    LongHeaderPlain();
    var r := Reply(200, None, [LongHeader()], [], OctetStream);
    data := PrintReply(r);
    assert data + [] == data;
    ResponseRoundTrip(r, []);
    ReplyHeadIsLong(r);
    ResponsePrefixResult(data, MAX_HEAD);
  }

  lemma ReplyHeadIsLong(r: Reply)
    requires GoodReply(r) && r.headers == [LongHeader()] && r.body == []
    ensures Find(PrintReply(r), BLANK).Some? && Find(PrintReply(r), BLANK).value > 9000
    ensures |PrintReply(r)| > 9000
  {
    hide Core, Cat, Find;
    var lines := ReplyLines(r);
    ReplyLinesClean(r);
    BlankFound(lines, r.body);
    assert lines[4] == HeaderLines(r.headers)[0] == HeaderLine(LongHeader());
    CoreIsLong(lines, 4);
  }
}
