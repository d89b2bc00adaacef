/** The HTTP/1.1 printers of api.c, and what the parsers make of their output. */
module HttpPrint {
  import opened Types
  import opened HttpParse

  /** What the application hands to the printers. */
  datatype Reply = Reply(status: int, text: Option<Bytes>, headers: seq<Header>, body: Bytes, kind: ContentType)
  datatype Call = Call(verb: Method, path: Bytes, headers: seq<Header>, body: Bytes)

  const HTTP_SP: Bytes := [72, 84, 84, 80, 47, 49, 46, 49, 32]           // "HTTP/1.1 "
  const SP_HTTP: Bytes := [32, 72, 84, 84, 80, 47, 49, 46, 49]           // " HTTP/1.1"
  const OK_STR: Bytes := [79, 75]
  const TYPE_KEY: Bytes := [67, 111, 110, 116, 101, 110, 116, 45, 84, 121, 112, 101]       // "Content-Type"
  const CLOSE_KEY: Bytes := [67, 111, 110, 110, 101, 99, 116, 105, 111, 110]           // "Connection"
  const CLOSE_VALUE: Bytes := [99, 108, 111, 115, 101]         // "close"
  const SEP: Bytes := [58, 32]
  const CLOSE_LINE: Bytes := CLOSE_KEY + SEP + CLOSE_VALUE

  const PLAIN_STR: Bytes := [116, 101, 120, 116, 47, 112, 108, 97, 105, 110]                    // "text/plain"
  const JSON_STR: Bytes := [97, 112, 112, 108, 105, 99, 97, 116, 105, 111, 110, 47, 106, 115, 111, 110]
  const OCTETS_STR: Bytes := [97, 112, 112, 108, 105, 99, 97, 116, 105, 111, 110, 47, 111, 99, 116, 101, 116, 45, 115,
                              116, 114, 101, 97, 109]

  function TypeStr(k: ContentType): (r: Bytes)
    ensures |r| < 30 && Clean(r)
  {
    match k
    case TextPlain => PLAIN_STR
    case OctetStream => OCTETS_STR
    case Json => JSON_STR
  }

  /** uhttp_content_type_from_str. */
  function KindOf(s: Bytes): ContentType {
    if s == OCTETS_STR then OctetStream else if s == JSON_STR then Json
    else if s == PLAIN_STR then TextPlain else OctetStream
  }

  /** The two translations of content types agree: every kind is read back from its text. */
  lemma KindReadBack(k: ContentType, s: Bytes)
    ensures KindOf(TypeStr(k)) == k
    ensures KindOf(s) != OctetStream ==> TypeStr(KindOf(s)) == s
  {}

  function VerbStr(m: Method): Bytes {
    match m
    case GET => GET_STR
    case POST => POST_STR
    case UNKNOWN => UNKNOWN_STR
  }

  /** `%zu` and `%d` on a natural number. */
  function Decimal(n: nat): (r: Bytes)
    ensures r != [] && forall c | c in r :: IsDigit(c)
  {
    if n < 10 then [48 + n] else Decimal(n / 10) + [48 + n % 10]
  }

  /** `%d`. */
  function Show(n: int): Bytes { if n < 0 then [45] + Decimal(-n) else Decimal(n) }

  /** No line break, and not empty. */
  predicate Clean(line: Bytes) { line != [] && CR !in line && LF !in line }

  function HeaderLine(h: Header): Bytes { h.key + SEP + h.value }

  function HeaderLines(hs: seq<Header>): (r: seq<Bytes>)
    ensures |r| == |hs| && forall i | 0 <= i < |hs| :: r[i] == HeaderLine(hs[i])
  {
    if hs == [] then [] else [HeaderLine(hs[0])] + HeaderLines(hs[1..])
  }

  /** Lines, each followed by a line break. */
  function Cat(lines: seq<Bytes>): Bytes {
    if lines == [] then [] else lines[0] + CRLF + Cat(lines[1..])
  }

  function LengthLine(n: nat): Bytes { LENGTH_KEY + SEP + Decimal(n) }
  function TypeLine(k: ContentType): Bytes { TYPE_KEY + SEP + TypeStr(k) }
  function TextOf(r: Reply): Bytes { if r.text.None? then OK_STR else r.text.value }
  function StatusLine(r: Reply): Bytes { HTTP_SP + Show(r.status) + [SP] + TextOf(r) }
  function RequestLine(q: Call): Bytes { VerbStr(q.verb) + [SP] + q.path + SP_HTTP }

  function ReplyLines(r: Reply): seq<Bytes> {
    [StatusLine(r), TypeLine(r.kind), LengthLine(|r.body|), CLOSE_LINE] + HeaderLines(r.headers)
  }

  function CallLines(q: Call): seq<Bytes> {
    [RequestLine(q), LengthLine(|q.body|)] + HeaderLines(q.headers)
  }

  function PrintReply(r: Reply): Bytes { Cat(ReplyLines(r)) + CRLF + r.body }

  function PrintCall(q: Call): Bytes { Cat(CallLines(q)) + CRLF + q.body }

  // ------------------------------------------------------------ the program's loops

  lemma {:induction false} CatAppend(a: seq<Bytes>, b: seq<Bytes>)
    ensures Cat(a + b) == Cat(a) + Cat(b)
  {
    if a == [] {
      assert a + b == b;
    } else {
      assert (a + b)[1..] == a[1..] + b;
      CatAppend(a[1..], b);
    }
  }

  /** The header loop shared by both printers: the bytes, and the size counted in advance. */
  method AppendHeaders(start: Bytes, hs: seq<Header>) returns (out: Bytes, size: nat)
    ensures out == start + Cat(HeaderLines(hs))
    ensures |out| == |start| + size
  {
    out, size := start, 0;
    for i := 0 to |hs|
      invariant out + Cat(HeaderLines(hs[i..])) == start + Cat(HeaderLines(hs))
      invariant |out| == |start| + size
    {
      assert HeaderLines(hs[i..])[1..] == HeaderLines(hs[i..][1..]) && hs[i..][1..] == hs[i + 1..];
      size := size + |hs[i].key| + 2 + |hs[i].value| + 2;
      out := out + (hs[i].key + SEP + hs[i].value + CRLF);
    }
    assert Cat([]) == [];
  }

  /**
   uhttp_build_response. Its size formula reserves three characters for the status, so the size
   it reports is off by the difference; it fails only when the status outgrows the header lines.
   The printed bytes are promised up to four characters, where they fit the buffer.
   */
  method BuildResponse(r: Reply) returns (data: Option<Bytes>, osz: nat)
    ensures data.None? <==> |Show(r.status)| > 5 + |Cat(HeaderLines(r.headers))|
    ensures data.Some? ==> osz + |Show(r.status)| == |PrintReply(r)| + 3
    ensures data.Some? && |Show(r.status)| <= 4 ==> data.value == PrintReply(r)
  {
    var text := if r.text.None? then OK_STR else r.text.value;
    var ct := TypeStr(r.kind);
    var len := Decimal(|r.body|);
    var status := Show(r.status);
    var headSize := 9 + 3 + 1 + |text| + 2;
    headSize := headSize + 14 + |ct| + 2;
    headSize := headSize + 16 + |len| + 2;
    headSize := headSize + 19;
    var written := HTTP_SP + status + [SP] + text + CRLF
                   + (TYPE_KEY + SEP + ct + CRLF) + (LENGTH_KEY + SEP + len + CRLF) + (CLOSE_LINE + CRLF);
    FourLines(StatusLine(r), TypeLine(r.kind), LengthLine(|r.body|), CLOSE_LINE);
    assert written == Cat([StatusLine(r), TypeLine(r.kind), LengthLine(|r.body|), CLOSE_LINE]);
    var out, size := AppendHeaders(written, r.headers);
    CatAppend([StatusLine(r), TypeLine(r.kind), LengthLine(|r.body|), CLOSE_LINE], HeaderLines(r.headers));
    osz := headSize + size + 2 + |r.body|;
    if |written| > headSize + size + 2 {
      return None, 0;
    }
    data := Some(out + CRLF + r.body);
  }

  lemma FourLines(a: Bytes, b: Bytes, c: Bytes, d: Bytes)
    ensures Cat([a, b, c, d]) == a + CRLF + (b + CRLF) + (c + CRLF) + (d + CRLF)
  {
    assert [a, b, c, d][1..] == [b, c, d] && [b, c, d][1..] == [c, d] && [c, d][1..] == [d] && [d][1..] == [];
    assert Cat([d]) == d + CRLF;
    assert Cat([c, d]) == c + CRLF + (d + CRLF);
    assert Cat([b, c, d]) == b + CRLF + Cat([c, d]);
  }

  /** uhttp_build_request. */
  method BuildRequest(q: Call) returns (data: Bytes, osz: nat)
    ensures data == PrintCall(q) && osz == |data|
  {
    var verb := VerbStr(q.verb);
    var len := Decimal(|q.body|);
    var headSize := |verb| + 1 + |q.path| + 11;
    headSize := headSize + 16 + |len| + 2;
    var written := verb + [SP] + q.path + SP_HTTP + CRLF + (LENGTH_KEY + SEP + len + CRLF);
    var two := [RequestLine(q), LengthLine(|q.body|)];
    assert two[1..] == [LengthLine(|q.body|)] && [LengthLine(|q.body|)][1..] == [];
    assert Cat([LengthLine(|q.body|)]) == LENGTH_KEY + SEP + len + CRLF;
    assert written == Cat(two);
    var out, size := AppendHeaders(written, q.headers);
    CatAppend(two, HeaderLines(q.headers));
    osz := headSize + size + 2 + |q.body|;
    data := out + CRLF + q.body;
  }

  // ----------------------------------------------------------------- decimals

  lemma ThreeDigits(n: nat)
    requires 100 <= n <= 999
    ensures Decimal(n) == [48 + n / 100, 48 + n / 10 % 10, 48 + n % 10]
  {
    assert Decimal(n) == Decimal(n / 10) + [48 + n % 10];
    assert Decimal(n / 10) == Decimal(n / 10 / 10) + [48 + n / 10 % 10];
    assert n / 10 / 10 == n / 100;
  }

  lemma {:induction false} DigitsAppend(a: Bytes, d: byte, acc: nat)
    requires IsDigit(d)
    ensures Digits(a + [d], acc) ==
      match Digits(a, acc)
      case None => None
      case Some(x) => if x * 10 + (d - 48) > MAX_BODY then None else Some(x * 10 + (d - 48))
  {
    if a == [] {
      assert [d][1..] == [];
    } else {
      assert (a + [d])[1..] == a[1..] + [d];
      if IsDigit(a[0]) && acc * 10 + (a[0] - 48) <= MAX_BODY {
        DigitsAppend(a[1..], d, acc * 10 + (a[0] - 48));
      }
    }
  }

  /** The parser reads back every printed length up to the limit. */
  lemma {:induction false} DecimalRead(n: nat)
    requires n <= MAX_BODY
    ensures Digits(Decimal(n), 0) == Some(n)
  {
    if n >= 10 {
      DecimalRead(n / 10);
      DigitsAppend(Decimal(n / 10), 48 + n % 10, 0);
    } else {
      assert [48 + n][1..] == [];
    }
  }

  function Pow10(k: nat): nat { if k == 0 then 1 else 10 * Pow10(k - 1) }

  lemma {:induction false} DecimalShort(n: nat, k: nat)
    requires 0 < k && n < Pow10(k)
    ensures |Decimal(n)| <= k
  {
    if n >= 10 {
      assert n / 10 < Pow10(k - 1);
      DecimalShort(n / 10, k - 1);
    }
  }
}
