/**
 What the parsers make of messages they did not print: any spelling of Content-Length, any
 number of fields, malformed first lines, and numbers as they come.
 */
module HttpMessages {
  import opened Types
  import opened HttpParse
  import opened HttpPrint
  import opened HttpTheorems

  // -------------------------------------------------------------------- numbers

  /** Space, tab, line feed, vertical tab, form feed and carriage return. */
  predicate IsBlank(c: byte) { c == 32 || c == 9 || c == 10 || c == 11 || c == 12 || c == 13 }
  predicate AllWhite(s: Bytes) { forall c | c in s :: IsBlank(c) }
  predicate AllDigits(s: Bytes) { forall c | c in s :: IsDigit(c) }

  /** The number a string of digits denotes. */
  function Value(d: Bytes): nat
    requires AllDigits(d)
  {
    if d == [] then 0
    else
      var last := d[|d| - 1];
      assert last in d;
      Value(d[..|d| - 1]) * 10 + (last - 48)
  }

  lemma ValueGrows(d: Bytes, k: nat)
    requires AllDigits(d) && k <= |d|
    ensures Value(d[..k]) <= Value(d)
    decreases |d| - k
  {
    if k < |d| {
      var next := d[..k + 1];
      assert d[k] in d;
      assert next[..|next| - 1] == d[..k] && next[|next| - 1] == d[k];
      assert Value(next) == Value(d[..k]) * 10 + (d[k] - 48);
      ValueGrows(d, k + 1);
    } else {
      assert d[..k] == d;
    }
  }

  /** Reading on from the first `k` digits. */
  lemma {:induction false} DigitsExactly(d: Bytes, k: nat)
    requires k <= |d| && AllDigits(d[..k]) && Value(d[..k]) <= MAX_BODY
    ensures Digits(d[k..], Value(d[..k])) ==
      if AllDigits(d) && Value(d) <= MAX_BODY then Some(Value(d)) else None
    decreases |d| - k
  {
    if k == |d| {
      assert d[..k] == d;
    } else {
      assert d[k] in d && d[k..][1..] == d[k + 1..];
      if IsDigit(d[k]) {
        assert d[..k + 1] == d[..k] + [d[k]] && d[..k + 1][..k] == d[..k];
        if Value(d[..k + 1]) <= MAX_BODY {
          DigitsExactly(d, k + 1);
        } else if AllDigits(d) {
          ValueGrows(d, k + 1);
        }
      }
    }
  }

  lemma {:induction false} SkipWhiteIs(w: Bytes, d: Bytes)
    requires AllWhite(w) && (d != [] ==> !IsSpace(d[0]))
    ensures SkipWhite(w + d) == d
  {
    if w == [] {
      assert w + d == d;
    } else {
      assert w[0] in w && (w + d)[1..] == w[1..] + d;
      SkipWhiteIs(w[1..], d);
    }
  }

  lemma {:induction false} SkipWhiteSplits(s: Bytes) returns (w: Bytes)
    ensures AllWhite(w) && s == w + SkipWhite(s) && (SkipWhite(s) != [] ==> !IsSpace(SkipWhite(s)[0]))
  {
    w := [];
    if s != [] && IsSpace(s[0]) {
      var rest := SkipWhiteSplits(s[1..]);
      w := [s[0]] + rest;
    }
  }

  ghost predicate WhiteThenDigits(s: Bytes, w: Bytes, d: Bytes) { s == w + d && AllWhite(w) && AllDigits(d) }

  /** A length is white space, then digits and nothing else, of a value within the limit. */
  lemma LengthExactly(s: Bytes, n: nat)
    ensures LengthOf(s) == Some(n) <==>
      s != [] && n <= MAX_BODY && exists w: Bytes, d: Bytes :: WhiteThenDigits(s, w, d) && Value(d) == n
  {
    if s != [] {
      var w := SkipWhiteSplits(s);
      var d := SkipWhite(s);
      assert d[..0] == [] && d[0..] == d;
      DigitsExactly(d, 0);
      if AllDigits(d) {
        assert WhiteThenDigits(s, w, d);
      }
      forall w': Bytes, d': Bytes | WhiteThenDigits(s, w', d') ensures d' == d {
        assert d' != [] ==> d'[0] in d';
        SkipWhiteIs(w', d');
      }
    }
  }

  lemma {:induction false} SignedDigitsExactly(d: Bytes, k: nat, rest: Bytes)
    requires k <= |d| && AllDigits(d) && (rest != [] ==> !IsDigit(rest[0]))
    ensures SignedDigits(d[k..] + rest, Value(d[..k])) == Value(d)
    decreases |d| - k
  {
    if k == |d| {
      assert d[..k] == d && d[k..] + rest == rest;
    } else {
      assert d[k] in d && (d[k..] + rest)[1..] == d[k + 1..] + rest;
      assert d[..k + 1][..k] == d[..k];
      SignedDigitsExactly(d, k + 1, rest);
    }
  }

  /** The status is a number after white space, without a sign, up to the first other character. */
  lemma AtoiUnsigned(w: Bytes, d: Bytes, rest: Bytes)
    requires AllWhite(w) && AllDigits(d)
    requires rest != [] ==> !IsDigit(rest[0])
    requires d == [] && rest != [] ==> !IsSpace(rest[0]) && rest[0] != 45 && rest[0] != 43
    ensures Atoi(w + d + rest) == Value(d)
  {
    hide SkipWhite, SignedDigits, Value;
    assert d[..0] == [] && d[0..] == d && Value([]) == 0 by { EmptyValue(); }
    SignedDigitsExactly(d, 0, rest);
    assert d != [] ==> d[0] in d;
    assert w + d + rest == w + (d + rest);
    SkipWhiteIs(w, d + rest);
  }

  lemma EmptyValue()
    ensures Value([]) == 0
  {}

  /** Or with one. */
  lemma AtoiSigned(w: Bytes, sign: byte, d: Bytes, rest: Bytes)
    requires AllWhite(w) && AllDigits(d) && (rest != [] ==> !IsDigit(rest[0])) && (sign == 43 || sign == 45)
    ensures Atoi(w + [sign] + d + rest) == if sign == 45 then 0 - Value(d) else Value(d)
  {
    hide SkipWhite, SignedDigits, Value;
    assert d[..0] == [] && d[0..] == d && Value([]) == 0 by { EmptyValue(); }
    SignedDigitsExactly(d, 0, rest);
    var tail := [sign] + d + rest;
    assert w + [sign] + d + rest == w + tail;
    SkipWhiteIs(w, tail);
    assert tail[1..] == d + rest;
  }

  lemma {:induction false} ValueOfDecimal(n: nat)
    ensures AllDigits(Decimal(n)) && Value(Decimal(n)) == n
  {
    if n >= 10 {
      ValueOfDecimal(n / 10);
      var d := Decimal(n);
      assert d[..|d| - 1] == Decimal(n / 10) && d[|d| - 1] == 48 + n % 10;
    } else {
      var d := Decimal(n);
      assert d[..0] == [] && Value([]) == 0;
    }
  }

  /** Every printed status, negative ones too, is read back as it was, whatever comes behind it. */
  lemma StatusReadBack(n: int, rest: Bytes)
    requires rest != [] ==> !IsDigit(rest[0])
    ensures Atoi(Show(n) + rest) == n
  {
    hide Atoi, Decimal, Value;
    if n < 0 {
      ValueOfDecimal(-n);
      AtoiSigned([], 45, Decimal(-n), rest);
      assert [] + [45] + Decimal(-n) + rest == Show(n) + rest;
    } else {
      ValueOfDecimal(n);
      AtoiUnsigned([], Decimal(n), rest);
      assert [] + Decimal(n) + rest == Show(n) + rest;
    }
  }

  // ---------------------------------------------------------------------- fields

  predicate IsLetter(c: byte) { 65 <= c <= 90 || 97 <= c <= 122 }

  predicate SameButCase(a: byte, b: byte) {
    a == b || (IsLetter(a) && IsLetter(b) && (a == b + 32 || b == a + 32))
  }

  /** "Content-Length" in any mixture of upper and lower case. */
  predicate SpellsLength(key: Bytes) {
    |key| == 14 && forall i | 0 <= i < 14 :: SameButCase(key[i], LENGTH_KEY[i])
  }

  lemma AnySpelling(key: Bytes)
    ensures IsLengthKey(key) <==> SpellsLength(key)
  {
    if |key| == 14 {
      forall i | 0 <= i < 14 ensures Lower(key[i]) == LENGTH_LOWER[i] <==> SameButCase(key[i], LENGTH_KEY[i]) {
        assert LENGTH_LOWER[i] == Lower(LENGTH_KEY[i]);
      }
    }
  }

  /** A field on one line, short enough to be stored as it is; a length must be one. */
  predicate GoodField(h: Header) {
    && COLON !in h.key && |h.key| < MAX_HEADER_SIZE && |h.value| < MAX_HEADER_SIZE
    && (h.value == [] || h.value[0] != SP)
    && CR !in h.key && LF !in h.key && CR !in h.value && LF !in h.value
    && (SpellsLength(h.key) ==> LengthOf(h.value).Some?)
  }

  predicate GoodFields(hs: seq<Header>) { forall i | 0 <= i < |hs| :: GoodField(hs[i]) }

  /** The length a list of fields declares: the last Content-Length counts, whatever its spelling. */
  function Declared(start: nat, hs: seq<Header>): nat
    decreases |hs|
  {
    if hs == [] then start
    else
      var n := if SpellsLength(hs[0].key) && LengthOf(hs[0].value).Some? then LengthOf(hs[0].value).value else start;
      Declared(n, hs[1..])
  }

  lemma FieldStored(f: Fields, h: Header)
    requires GoodField(h)
    ensures Line(f, HeaderLine(h)) ==
      if |f.headers| < MAX_HEADERS then Some(Fields(f.headers + [h], Declared(f.length, [h]))) else Some(f)
  {
    hide IndexOf, LengthOf, SpellsLength, IsLengthKey;
    AnySpelling(h.key);
    assert HeaderLine(h) == h.key + [COLON] + ([SP] + h.value);
    KeyEnds(h.key, [SP] + h.value);
    if h.value == [] {
      assert SkipSpaces([SP]) == SkipSpaces([]) == [];
      assert [SP] + h.value == [SP];
    } else {
      NoSpaceFront(h.value);
    }
    assert [h][1..] == [];
  }

  lemma DeclaredSplits(start: nat, h: Header, hs: seq<Header>)
    ensures Declared(start, [h] + hs) == Declared(Declared(start, [h]), hs)
  {
    assert ([h] + hs)[1..] == hs && [h][1..] == [];
  }

  /** How many of `n` more fields are stored behind `m`. */
  function Room(m: nat, n: nat): (k: nat)
    ensures k <= n
  {
    if m + n <= MAX_HEADERS then n else if m <= MAX_HEADERS then MAX_HEADERS - m else 0
  }

  function Collected(f: Fields, hs: seq<Header>): Fields {
    Fields(f.headers + hs[..Room(|f.headers|, |hs|)], Declared(f.length, hs[..Room(|f.headers|, |hs|)]))
  }

  lemma CollectedFirst(f: Fields, hs: seq<Header>)
    requires hs != [] && |f.headers| <= MAX_HEADERS
    ensures var g := if |f.headers| < MAX_HEADERS then Fields(f.headers + [hs[0]], Declared(f.length, [hs[0]])) else f;
            Collected(g, hs[1..]) == Collected(f, hs)
  {
    hide Declared;
    var k := Room(|f.headers|, |hs|);
    if k > 0 {
      assert hs[..k] == [hs[0]] + hs[1..][..k - 1];
      DeclaredSplits(f.length, hs[0], hs[1..][..k - 1]);
      assert f.headers + [hs[0]] + hs[1..][..k - 1] == f.headers + hs[..k];
    } else {
      assert hs[1..][..0] == hs[..0] == [];
    }
  }

  /** What the parser makes of good fields: the first twenty, and the length they declare. */
  lemma {:induction false} FieldsStored(f: Fields, hs: seq<Header>)
    requires |f.headers| <= MAX_HEADERS && GoodFields(hs)
    ensures Fold(f, HeaderLines(hs)) == Some(Collected(f, hs))
    decreases |hs|
  {
    if hs == [] {
      assert f.headers + hs[..0] == f.headers;
    } else {
      hide Line, GoodField, HeaderLine, Declared, Collected;
      FieldStored(f, hs[0]);
      assert HeaderLines(hs)[1..] == HeaderLines(hs[1..]);
      FieldsStored(Line(f, HeaderLine(hs[0])).value, hs[1..]);
      CollectedFirst(f, hs);
    }
  }

  /** A line without a colon, one that is too long on either side, and any line after the twentieth leave no trace. */
  lemma LineSkipped(f: Fields, key: Bytes, value: Bytes)
    requires COLON !in key && (value == [] || value[0] != SP)
    ensures Line(f, key) == Some(f)
    ensures |key| >= MAX_HEADER_SIZE || |value| >= MAX_HEADER_SIZE || |f.headers| >= MAX_HEADERS ==>
              Line(f, key + [COLON] + value) == Some(f)
  {
    hide IndexOf;
    IndexOfIs(key, COLON, |key|);
    KeyEnds(key, value);
    assert SkipSpaces(value) == value;
  }

  /** Spaces in front of a value are dropped, however many there are. */
  lemma {:induction false} SpacesDropped(f: Fields, key: Bytes, n: nat, value: Bytes)
    requires COLON !in key && (value == [] || value[0] != SP)
    ensures Line(f, key + [COLON] + seq(n, _ => SP) + value) == Line(f, key + [COLON] + value)
  {
    hide IndexOf;
    SkipAll(n, value);
    assert SkipSpaces(value) == value;
    assert key + [COLON] + seq(n, _ => SP) + value == key + [COLON] + (seq(n, _ => SP) + value);
    KeyEnds(key, seq(n, _ => SP) + value);
    KeyEnds(key, value);
  }

  lemma {:induction false} SkipAll(n: nat, value: Bytes)
    requires value == [] || value[0] != SP
    ensures SkipSpaces(seq(n, _ => SP) + value) == value
  {
    var s: Bytes := seq(n, _ => SP);
    if n == 0 {
      assert s + value == value;
    } else {
      assert (s + value)[1..] == seq(n - 1, _ => SP) + value;
      SkipAll(n - 1, value);
    }
  }

  /** A Content-Length field whose value is not a length is an error, in any spelling. */
  lemma BadLengthIsError(f: Fields, h: Header)
    requires SpellsLength(h.key) && LengthOf(h.value).None? && |f.headers| < MAX_HEADERS
    requires |h.value| < MAX_HEADER_SIZE && h.value != [] && h.value[0] != SP
    ensures Line(f, HeaderLine(h)) == None
  {
    hide IndexOf, LengthOf, IsLengthKey;
    AnySpelling(h.key);
    assert COLON !in h.key;
    assert HeaderLine(h) == h.key + [COLON] + ([SP] + h.value);
    KeyEnds(h.key, [SP] + h.value);
    NoSpaceFront(h.value);
  }

  // -------------------------------------------------------------------- messages

  function Message(line: Bytes, hs: seq<Header>, rest: Bytes): Bytes {
    Cat([line] + HeaderLines(hs)) + CRLF + rest
  }

  lemma FieldsClean(hs: seq<Header>)
    requires GoodFields(hs)
    ensures AllClean(HeaderLines(hs))
  {
    forall i | 0 <= i < |hs| ensures Clean(HeaderLines(hs)[i]) {
      var h := hs[i];
      assert GoodField(h);
      assert forall c | c in h.key + SEP + h.value :: c in h.key || c in SEP || c in h.value;
    }
  }

  /** The stored fields of a message: all but the last, at most twenty. */
  function StoredFields(hs: seq<Header>): seq<Header>
    requires hs != []
  {
    FirstTwenty(hs[..|hs| - 1])
  }

  /** How the parsers cut a message up. */
  lemma MessageCut(line: Bytes, hs: seq<Header>, rest: Bytes)
    requires Clean(line) && GoodFields(hs)
    ensures var data := Message(line, hs, rest);
            && data != [] && Find(data, BLANK).Some?
            && var h := Find(data, BLANK).value;
               && h + 4 <= |data| && data[h + 4..] == rest
               && (hs == [] ==> Find(data[..h], CRLF).None?)
               && (hs != [] ==>
                     && Find(data[..h], CRLF) == Some(|line|) && |line| + 2 <= h && data[..h][..|line|] == line
                     && Lines(Fields([], 0), data[..h][|line| + 2..])
                          == Some(Fields(StoredFields(hs), Declared(0, StoredFields(hs)))))
  {
    hide Find, Lines, Core, Cat, Clean, Declared, HeaderLines;
    var lines := [line] + HeaderLines(hs);
    FieldsClean(hs);
    BlankFound(lines, rest);
    var data, core := Message(line, hs, rest), Core(lines);
    assert data == core + BLANK + rest;
    assert data[..|core|] == core && data[|core| + 4..] == rest;
    if hs == [] {
      LineAlone(line, hs);
    } else {
      SplitFirst(lines);
      assert lines[1..] == HeaderLines(hs);
      LinesSkipLast(Fields([], 0), lines[1..]);
      HeaderFront(hs);
      FieldsStored(Fields([], 0), hs[..|hs| - 1]);
      CoreLonger(lines);
      CollectedFresh(hs[..|hs| - 1]);
    }
  }

  lemma LineAlone(line: Bytes, hs: seq<Header>)
    requires hs == [] && Clean(line)
    ensures [line] + HeaderLines(hs) == [line] && Core([line]) == line && Find(line, CRLF).None?
  {
    hide Find;
    NoBreak(line);
  }

  lemma CoreLonger(lines: seq<Bytes>)
    requires |lines| > 1
    ensures |Core(lines)| >= |lines[0]| + 2
  {}

  lemma CollectedFresh(hs: seq<Header>)
    ensures Collected(Fields([], 0), hs) == Fields(FirstTwenty(hs), Declared(0, FirstTwenty(hs)))
  {
    var k := Room(0, |hs|);
    assert [] + hs[..k] == FirstTwenty(hs) == hs[..k];
  }

  /** The first line of a request as it should be: two spaces, neither in the words before them. */
  predicate Words(line: Bytes, first: Bytes, second: Bytes, tail: Bytes) {
    line == first + [SP] + second + [SP] + tail && SP !in first && SP !in second
  }

  lemma WordsFound(line: Bytes, first: Bytes, second: Bytes, tail: Bytes)
    requires Words(line, first, second, tail)
    ensures IndexOf(line, SP) == |first| < |line| && line[..|first|] == first
    ensures var rest := line[|first| + 1..];
            && IndexOf(rest, SP) == |second| < |rest| && rest[..|second|] == second && rest[|second| + 1..] == tail
  {
    hide IndexOf;
    assert line == first + [SP] + (second + [SP] + tail);
    SpaceEnds(first, second + [SP] + tail);
    SpaceEnds(second, tail);
  }

  /** The body length a request waits for: what it declares if it is a POST. */
  function Wanted(verb: Bytes, hs: seq<Header>): nat
    requires hs != []
  {
    if verb == POST_STR then Declared(0, StoredFields(hs)) else 0
  }

  /**
   Every request with good fields, in whatever spelling, parses to its words, its stored fields
   and the body it declares; it is INCOMPLETE while the body is, and an error exactly when the
   path has 512 bytes or more.
   */
  lemma RequestParsed(line: Bytes, verb: Bytes, path: Bytes, tail: Bytes, hs: seq<Header>, rest: Bytes)
    requires Clean(line) && Words(line, verb, path, tail) && hs != [] && GoodFields(hs)
    ensures var n := Wanted(verb, hs);
            ParseRequest(Message(line, hs, rest)) ==
              if |path| >= MAX_PATH_SIZE then Error
              else if |rest| < n then Incomplete
              else Ok(Request(VerbOf(verb), path, StoredFields(hs), Declared(0, StoredFields(hs)), rest[..n]))
  {
    hide Find, Lines, IndexOf, Message, Declared, StoredFields, Clean;
    MessageCut(line, hs, rest);
    WordsFound(line, verb, path, tail);
  }

  ghost predicate HasWords(line: Bytes) {
    exists first: Bytes, second: Bytes, tail: Bytes :: Words(line, first, second, tail)
  }

  lemma HasWordsExactly(line: Bytes)
    ensures var s1 := IndexOf(line, SP);
            HasWords(line) <==> s1 < |line| && IndexOf(line[s1 + 1..], SP) < |line[s1 + 1..]|
  {
    var s1 := IndexOf(line, SP);
    if s1 < |line| && IndexOf(line[s1 + 1..], SP) < |line[s1 + 1..]| {
      WordsCut(line);
    }
    if HasWords(line) {
      hide IndexOf;
      var first: Bytes, second: Bytes, tail: Bytes :| Words(line, first, second, tail);
      WordsFound(line, first, second, tail);
    }
  }

  lemma WordsCut(line: Bytes)
    requires IndexOf(line, SP) < |line|
    requires var rest := line[IndexOf(line, SP) + 1..]; IndexOf(rest, SP) < |rest|
    ensures HasWords(line)
  {
    hide IndexOf;
    var s1 := IndexOf(line, SP);
    var rest := line[s1 + 1..];
    var s2 := IndexOf(rest, SP);
    var first, second, tail := line[..s1], rest[..s2], rest[s2 + 1..];
    assert rest == second + [SP] + tail;
    assert line == first + [SP] + rest;
    assert line == first + [SP] + second + [SP] + tail;
    assert Words(line, first, second, tail);
  }

  /** A message without any field, or whose first line has fewer than two spaces, is an error to both parsers. */
  lemma MalformedIsError(line: Bytes, hs: seq<Header>, rest: Bytes)
    requires Clean(line) && GoodFields(hs) && (hs == [] || !HasWords(line))
    ensures ParseRequest(Message(line, hs, rest)) == Error
    ensures ParseResponse(Message(line, hs, rest)) == Error
  {
    hide Find, Lines, IndexOf, Message, Declared, StoredFields, Clean, Words, Atoi;
    MessageCut(line, hs, rest);
    HasWordsExactly(line);
  }

  /** The same for responses, where the second word is the status, of at most seven characters. */
  lemma ResponseParsed(line: Bytes, version: Bytes, code: Bytes, text: Bytes, hs: seq<Header>, rest: Bytes)
    requires Clean(line) && Words(line, version, code, text) && hs != [] && GoodFields(hs)
    ensures var n := Declared(0, StoredFields(hs));
            ParseResponse(Message(line, hs, rest)) ==
              if |code| >= 8 then Error
              else if |rest| < n then Incomplete
              else Ok(Response(Atoi(code), if text == [] then None else Some(text), StoredFields(hs), rest[..n],
                               OctetStream))
  {
    hide Find, Lines, IndexOf, Message, Declared, StoredFields, Clean, Atoi;
    MessageCut(line, hs, rest);
    WordsFound(line, version, code, text);
  }

  lemma LengthThenLast(key: Bytes, last: Header, n: nat)
    requires SpellsLength(key) && GoodField(last) && n <= MAX_BODY
    ensures var hs := [Header(key, Decimal(n)), last];
            GoodFields(hs) && StoredFields(hs) == [Header(key, Decimal(n))] && Declared(0, StoredFields(hs)) == n
  {
    var hs := [Header(key, Decimal(n)), last];
    LengthFieldGood(key, n);
    assert hs[..1] == [hs[0]];
  }

  /** A length in any spelling, with one field behind it, brings the body of a POST back. */
  lemma AnySpellingGivesBody(key: Bytes, last: Header, path: Bytes, tail: Bytes, body: Bytes, more: Bytes)
    requires SpellsLength(key) && GoodField(last) && |body| <= MAX_BODY
    requires Clean(POST_STR + [SP] + path + [SP] + tail) && SP !in path && |path| < MAX_PATH_SIZE
    ensures var hs := [Header(key, Decimal(|body|)), last];
            var p := ParseRequest(Message(POST_STR + [SP] + path + [SP] + tail, hs, body + more));
            p.Ok? && p.value.verb == POST && p.value.path == path && p.value.body == body
  {
    hide ParseRequest, Message, Clean, Declared, StoredFields, GoodField, Decimal, SpellsLength;
    LengthThenLast(key, last, |body|);
    var line := POST_STR + [SP] + path + [SP] + tail;
    assert Words(line, POST_STR, path, tail);
    RequestParsed(line, POST_STR, path, tail, [Header(key, Decimal(|body|)), last], body + more);
    assert (body + more)[..|body|] == body;
  }

  /** And that of a response. */
  lemma AnySpellingGivesReplyBody(
      key: Bytes, last: Header, version: Bytes, code: Bytes, text: Bytes, body: Bytes, more: Bytes)
    requires SpellsLength(key) && GoodField(last) && |body| <= MAX_BODY
    requires Clean(version + [SP] + code + [SP] + text) && SP !in version && SP !in code && |code| < 8
    ensures var hs := [Header(key, Decimal(|body|)), last];
            var p := ParseResponse(Message(version + [SP] + code + [SP] + text, hs, body + more));
            p.Ok? && p.value.status == Atoi(code) && p.value.body == body
  {
    hide ParseResponse, Message, Clean, Declared, StoredFields, GoodField, Decimal, SpellsLength, Atoi;
    LengthThenLast(key, last, |body|);
    var line := version + [SP] + code + [SP] + text;
    assert Words(line, version, code, text);
    ResponseParsed(line, version, code, text, [Header(key, Decimal(|body|)), last], body + more);
    assert (body + more)[..|body|] == body;
  }

  lemma LengthFieldGood(key: Bytes, n: nat)
    requires SpellsLength(key) && n <= MAX_BODY
    ensures var h := Header(key, Decimal(n));
            GoodField(h) && Declared(0, [h]) == n
  {
    hide Digits, Pow10;
    var d := Decimal(n);
    assert d[0] in d;
    DigitsNoWhite(d);
    DecimalRead(n);
    EightDigits();
    DecimalShort(n, 8);
    DecimalClean(n);
    assert [Header(key, d)][1..] == [];
    assert forall i | 0 <= i < 14 :: key[i] != CR && key[i] != LF && key[i] != COLON;
  }
}
