/** The HTTP/1.1 parsers of parser.c, over complete and partial input. */
module HttpParse {
  import opened Types

  type Bytes = seq<byte>

  const MAX_HEADERS: nat := 20
  const MAX_HEADER_SIZE: nat := 256
  const MAX_PATH_SIZE: nat := 512
  const MAX_HEAD: nat := 8192
  const MAX_BODY: nat := 10 * 1024 * 1024

  const CR: byte := 13
  const LF: byte := 10
  const SP: byte := 32
  const COLON: byte := 58
  const CRLF: Bytes := [13, 10]
  const BLANK: Bytes := [13, 10, 13, 10]

  const GET_STR: Bytes := [71, 69, 84]
  const POST_STR: Bytes := [80, 79, 83, 84]
  const UNKNOWN_STR: Bytes := [85, 78, 75, 78, 79, 87, 78]
  // "Content-Length" and its lower-case form
  const LENGTH_KEY: Bytes := [67, 111, 110, 116, 101, 110, 116, 45, 76, 101, 110, 103, 116, 104]
  const LENGTH_LOWER: Bytes := [99, 111, 110, 116, 101, 110, 116, 45, 108, 101, 110, 103, 116, 104]

  datatype Parse<+T> = Ok(value: T) | Error | Incomplete
  datatype Method = GET | POST | UNKNOWN
  datatype Header = Header(key: Bytes, value: Bytes)
  datatype Request = Request(verb: Method, path: Bytes, headers: seq<Header>, contentLength: nat, body: Bytes)
  datatype ContentType = TextPlain | OctetStream | Json
  datatype Response = Response(
    status: int, text: Option<Bytes>, headers: seq<Header>, body: Bytes, kind: ContentType)

  // ------------------------------------------------------------- searching

  predicate At(buf: Bytes, pat: Bytes, i: nat) {
    i + |pat| <= |buf| && buf[i..i + |pat|] == pat
  }

  /** The first occurrence of `pat` at or after `i`. */
  function FindFrom(buf: Bytes, pat: Bytes, i: nat): (r: Option<nat>)
    ensures r.Some? ==> i <= r.value && At(buf, pat, r.value) && forall j | i <= j < r.value :: !At(buf, pat, j)
    ensures r.None? ==> forall j | i <= j :: !At(buf, pat, j)
    decreases if i <= |buf| then |buf| - i + 1 else 0
  {
    if i + |pat| > |buf| then None
    else if At(buf, pat, i) then Some(i)
    else FindFrom(buf, pat, i + 1)
  }

  function Find(buf: Bytes, pat: Bytes): Option<nat> { FindFrom(buf, pat, 0) }

  lemma FindIs(buf: Bytes, pat: Bytes, i: nat)
    requires At(buf, pat, i) && forall j | 0 <= j < i :: !At(buf, pat, j)
    ensures Find(buf, pat) == Some(i)
  {
    var r := Find(buf, pat);
    assert r.Some? ==> !(r.value < i) && !(i < r.value);
  }

  /** The first position of a byte, or |s|. */
  function IndexOf(s: Bytes, c: byte): (i: nat)
    ensures i <= |s| && (forall j | 0 <= j < i :: s[j] != c)
    ensures i < |s| ==> s[i] == c
  {
    if s == [] || s[0] == c then 0 else 1 + IndexOf(s[1..], c)
  }

  lemma {:induction false} IndexOfIs(s: Bytes, c: byte, i: nat)
    requires i <= |s| && (i < |s| ==> s[i] == c) && forall j | 0 <= j < i :: s[j] != c
    ensures IndexOf(s, c) == i
  {
    if i > 0 {
      IndexOfIs(s[1..], c, i - 1);
    }
  }

  // ------------------------------------------------------------- header lines

  predicate IsSpace(c: byte) { c == 32 || 9 <= c <= 13 }
  predicate IsDigit(c: byte) { 48 <= c <= 57 }

  function SkipWhite(s: Bytes): Bytes { if s != [] && IsSpace(s[0]) then SkipWhite(s[1..]) else s }
  function SkipSpaces(s: Bytes): Bytes { if s != [] && s[0] == SP then SkipSpaces(s[1..]) else s }

  function Digits(s: Bytes, acc: nat): Option<nat> {
    if s == [] then Some(acc)
    else if !IsDigit(s[0]) || acc * 10 + (s[0] - 48) > MAX_BODY then None
    else Digits(s[1..], acc * 10 + (s[0] - 48))
  }

  /** parse_content_length; None is its error return. */
  function LengthOf(s: Bytes): Option<nat> {
    if s == [] then None else Digits(SkipWhite(s), 0)
  }

  function Lower(c: byte): byte { if 65 <= c <= 90 then c + 32 else c }

  predicate IsLengthKey(key: Bytes) {
    |key| == 14 && forall i | 0 <= i < 14 :: Lower(key[i]) == LENGTH_LOWER[i]
  }

  datatype Fields = Fields(headers: seq<Header>, length: nat)

  predicate Recordable(f: Fields, key: Bytes, val: Bytes) {
    |f.headers| < MAX_HEADERS && |key| < MAX_HEADER_SIZE && |val| < MAX_HEADER_SIZE
  }

  /** What one header line does to the fields so far; None is the parse error. */
  function Line(f: Fields, line: Bytes): Option<Fields> {
    var c := IndexOf(line, COLON);
    if c == |line| then Some(f)
    else
      var key, val := line[..c], SkipSpaces(line[c + 1..]);
      if !Recordable(f, key, val) then Some(f)
      else if !IsLengthKey(key) then Some(Fields(f.headers + [Header(key, val)], f.length))
      else if LengthOf(val).None? then None
      else Some(Fields(f.headers + [Header(key, val)], LengthOf(val).value))
  }

  /** Only lines that end in CRLF inside the span count: the last header line never does. */
  function Lines(f: Fields, span: Bytes): Option<Fields>
    decreases |span|
  {
    match Find(span, CRLF)
    case None => Some(f)
    case Some(i) =>
      var g := Line(f, span[..i]);
      if g.None? then None else Lines(g.value, span[i + 2..])
  }

  // ------------------------------------------------------------------ requests

  function VerbOf(s: Bytes): Method { if s == GET_STR then GET else if s == POST_STR then POST else UNKNOWN }

  /** Everything a request head says: method, path and fields. */
  function RequestHead(head: Bytes): Option<Request> {
    match Find(head, CRLF)
    case None => None
    case Some(e) =>
      var line := head[..e];
      var s1 := IndexOf(line, SP);
      if s1 == |line| then None
      else
        var rest := line[s1 + 1..];
        var s2 := IndexOf(rest, SP);
        if s2 == |rest| || s2 >= MAX_PATH_SIZE then None
        else match Lines(Fields([], 0), head[e + 2..])
             case None => None
             case Some(f) => Some(Request(VerbOf(line[..s1]), rest[..s2], f.headers, f.length, []))
  }

  /** How many body bytes the parser waits for. */
  function BodySize(r: Request): nat { if r.verb == POST then r.contentLength else 0 }

  function ParseRequest(data: Bytes): Parse<Request> {
    if data == [] then Error
    else match Find(data, BLANK)
         case None => if |data| >= MAX_HEAD then Error else Incomplete
         case Some(h) =>
           match RequestHead(data[..h])
           case None => Error
           case Some(r) =>
             var rest := data[h + 4..];
             if |rest| < BodySize(r) then Incomplete else Ok(r.(body := rest[..BodySize(r)]))
  }

  // ------------------------------------------------------------------ responses

  function SignedDigits(s: Bytes, acc: int): int
    decreases |s|
  {
    if s == [] || !IsDigit(s[0]) then acc else SignedDigits(s[1..], acc * 10 + (s[0] - 48))
  }

  /** atoi on at most seven characters. */
  function Atoi(s: Bytes): int {
    var t := SkipWhite(s);
    if t != [] && t[0] == 45 then -SignedDigits(t[1..], 0)
    else if t != [] && t[0] == 43 then SignedDigits(t[1..], 0)
    else SignedDigits(t, 0)
  }

  function ResponseHead(head: Bytes): Option<(Response, nat)> {
    match Find(head, CRLF)
    case None => None
    case Some(e) =>
      var line := head[..e];
      var s1 := IndexOf(line, SP);
      if s1 == |line| then None
      else
        var rest := line[s1 + 1..];
        var s2 := IndexOf(rest, SP);
        if s2 == |rest| || s2 >= 8 then None
        else match Lines(Fields([], 0), head[e + 2..])
             case None => None
             case Some(f) =>
               var text := rest[s2 + 1..];
               Some((Response(Atoi(rest[..s2]), if text == [] then None else Some(text), f.headers, [], OctetStream),
                     f.length))
  }

  function ParseResponse(data: Bytes): Parse<Response> {
    if data == [] then Error
    else match Find(data, BLANK)
         case None => if |data| >= MAX_HEAD then Error else Incomplete
         case Some(h) =>
           match ResponseHead(data[..h])
           case None => Error
           case Some((r, n)) =>
             var rest := data[h + 4..];
             if |rest| < n then Incomplete else Ok(r.(body := rest[..n]))
  }

  // ------------------------------------------------------------ the program's loops

  method FindSequence(buf: Bytes, pat: Bytes) returns (r: Option<nat>)
    ensures r == Find(buf, pat)
  {
    if |pat| > |buf| {
      return None;
    }
    var i := 0;
    while i <= |buf| - |pat|
      invariant FindFrom(buf, pat, i) == Find(buf, pat)
    {
      if buf[i..i + |pat|] == pat {
        return Some(i);
      }
      i := i + 1;
    }
    return None;
  }

  method FindByte(s: Bytes, c: byte) returns (i: nat)
    ensures i == IndexOf(s, c)
  {
    i := 0;
    while i < |s| && s[i] != c
      invariant i <= |s| && forall j | 0 <= j < i :: s[j] != c
    {
      i := i + 1;
    }
    IndexOfIs(s, c, i);
  }

  method ParseContentLength(s: Bytes) returns (r: Option<nat>)
    ensures r == LengthOf(s)
  {
    if |s| == 0 {
      return None;
    }
    var i := 0;
    assert s[0..] == s;
    while i < |s| && IsSpace(s[i])
      invariant i <= |s| && SkipWhite(s[i..]) == SkipWhite(s)
    {
      assert s[i..][1..] == s[i + 1..];
      i := i + 1;
    }
    ghost var t := s[i..];
    assert SkipWhite(s) == t;
    var out: nat := 0;
    while i < |s|
      invariant i <= |s| && Digits(s[i..], out) == Digits(t, 0)
      decreases |s| - i
    {
      assert s[i..][1..] == s[i + 1..];
      if !IsDigit(s[i]) {
        return None;
      }
      out := out * 10 + (s[i] - 48);
      if out > MAX_BODY {
        return None;
      }
      i := i + 1;
    }
    return Some(out);
  }

  method SkipValueSpaces(s: Bytes) returns (r: Bytes)
    ensures r == SkipSpaces(s)
  {
    r := s;
    while |r| > 0 && r[0] == SP
      invariant SkipSpaces(r) == SkipSpaces(s)
      decreases |r|
    {
      r := r[1..];
    }
  }

  method SameKey(key: Bytes) returns (same: bool)
    ensures same <==> IsLengthKey(key)
  {
    if |key| != 14 {
      return false;
    }
    for i := 0 to 14
      invariant forall j | 0 <= j < i :: Lower(key[j]) == LENGTH_LOWER[j]
    {
      if Lower(key[i]) != LENGTH_LOWER[i] {
        return false;
      }
    }
    return true;
  }

  method ParseLine(f: Fields, line: Bytes) returns (r: Option<Fields>)
    ensures r == Line(f, line)
  {
    hide LengthOf, IsLengthKey, SkipSpaces, IndexOf;
    var colon := FindByte(line, COLON);
    if colon == |line| {
      return Some(f);
    }
    var key := line[..colon];
    var val := SkipValueSpaces(line[colon + 1..]);
    if !(|f.headers| < MAX_HEADERS && |key| < MAX_HEADER_SIZE && |val| < MAX_HEADER_SIZE) {
      return Some(f);
    }
    var length := f.length;
    var isLength := SameKey(key);
    if isLength {
      var n := ParseContentLength(val);
      if n.None? {
        return None;
      }
      length := n.value;
    }
    return Some(Fields(f.headers + [Header(key, val)], length));
  }

  method ParseHeaders(span: Bytes) returns (r: Option<Fields>)
    ensures r == Lines(Fields([], 0), span)
  {
    hide Line, Find;
    var f := Fields([], 0);
    var lineStart := 0;
    assert span[0..] == span;
    while lineStart < |span|
      invariant lineStart <= |span| && Lines(f, span[lineStart..]) == Lines(Fields([], 0), span)
      decreases |span| - lineStart
    {
      ghost var rest := span[lineStart..];
      var lineEnd := FindSequence(span[lineStart..], CRLF);
      if lineEnd.None? {
        return Some(f);
      }
      FindBounds(rest, CRLF);
      var g := ParseLine(f, span[lineStart..lineStart + lineEnd.value]);
      assert rest[..lineEnd.value] == span[lineStart..lineStart + lineEnd.value];
      assert rest[lineEnd.value + 2..] == span[lineStart + lineEnd.value + 2..];
      if g.None? {
        return None;
      }
      f := g.value;
      lineStart := lineStart + lineEnd.value + 2;
    }
    NoLines(f, span[lineStart..]);
    return Some(f);
  }

  lemma FindBounds(buf: Bytes, pat: Bytes)
    ensures Find(buf, pat).Some? ==> At(buf, pat, Find(buf, pat).value)
  {}

  lemma NoLines(f: Fields, span: Bytes)
    requires span == []
    ensures Lines(f, span) == Some(f)
  {}

  method ParseRequestBytes(data: Bytes) returns (r: Parse<Request>)
    ensures r == ParseRequest(data)
  {
    hide Find, Lines, IndexOf;
    if |data| == 0 {
      return Error;
    }
    FindBounds(data, BLANK);
    var headEnd := FindSequence(data, BLANK);
    if headEnd.None? {
      if |data| >= MAX_HEAD {
        return Error;
      }
      return Incomplete;
    }
    var h := headEnd.value;
    var req := ParseRequestHead(data[..h]);
    if req.None? {
      return Error;
    }
    var rest := data[h + 4..];
    if req.value.verb == POST && req.value.contentLength > 0 {
      if |rest| < req.value.contentLength {
        return Incomplete;
      }
      return Ok(req.value.(body := rest[..req.value.contentLength]));
    }
    HeadHasNoBody(data[..h]);
    assert rest[..0] == [];
    return Ok(req.value);
  }

  lemma HeadHasNoBody(head: Bytes)
    ensures RequestHead(head).Some? ==> RequestHead(head).value.body == []
  {}

  method ParseRequestHead(head: Bytes) returns (r: Option<Request>)
    ensures r == RequestHead(head)
  {
    hide Find, Lines, IndexOf;
    FindBounds(head, CRLF);
    var lineEnd := FindSequence(head, CRLF);
    if lineEnd.None? {
      return None;
    }
    var line := head[..lineEnd.value];
    var space1 := FindByte(line, SP);
    if space1 == |line| {
      return None;
    }
    var verb := if line[..space1] == GET_STR then GET else if line[..space1] == POST_STR then POST else UNKNOWN;
    var tail := line[space1 + 1..];
    var space2 := FindByte(tail, SP);
    if space2 == |tail| {
      return None;
    }
    if space2 >= MAX_PATH_SIZE {
      return None;
    }
    var f := ParseHeaders(head[lineEnd.value + 2..]);
    if f.None? {
      return None;
    }
    return Some(Request(verb, tail[..space2], f.value.headers, f.value.length, []));
  }

  method ParseResponseBytes(data: Bytes) returns (r: Parse<Response>)
    ensures r == ParseResponse(data)
  {
    hide Find, Lines, IndexOf, Atoi;
    if |data| == 0 {
      return Error;
    }
    FindBounds(data, BLANK);
    var headEnd := FindSequence(data, BLANK);
    if headEnd.None? {
      if |data| >= MAX_HEAD {
        return Error;
      }
      return Incomplete;
    }
    var h := headEnd.value;
    var head := data[..h];
    FindBounds(head, CRLF);
    var lineEnd := FindSequence(head, CRLF);
    if lineEnd.None? {
      return Error;
    }
    var line := head[..lineEnd.value];
    var space1 := FindByte(line, SP);
    if space1 == |line| {
      return Error;
    }
    var tail := line[space1 + 1..];
    var space2 := FindByte(tail, SP);
    if space2 == |tail| || space2 >= 8 {
      return Error;
    }
    var text := tail[space2 + 1..];
    var f := ParseHeaders(head[lineEnd.value + 2..]);
    if f.None? {
      return Error;
    }
    var rest := data[h + 4..];
    var n := f.value.length;
    if n > 0 && |rest| < n {
      return Incomplete;
    }
    return Ok(Response(Atoi(tail[..space2]), if |text| > 0 then Some(text) else None, f.value.headers, rest[..n],
                       OctetStream));
  }
}
