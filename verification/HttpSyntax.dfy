/** What the parsers of lib/http/parsing.c accept and what the serializers of
    lib/http/serialization.c produce, as functions on text. The header grammar is written in one
    pass; the program's two passes are proved equal to it in module Parsing. */
module HttpSyntax {
  import opened Text
  import opened Http

  /** A value and the text left after it. */
  datatype Parsed<+T> = Fail | Parsed(value: T, rest: string) {
    predicate IsFailure() { Fail? }
    function PropagateFailure<U>(): Parsed<U> requires Fail? { Fail }
    function Extract(): (T, string) requires Parsed? { (value, rest) }
  }

  predicate IsSpace(c: char) { c == ' ' }
  predicate NotSpace(c: char) { c != ' ' }

  function Expect(s: string, c: char): Parsed<()> {
    if s != "" && s[0] == c then Parsed((), s[1..]) else Fail
  }

  function ExpectLineEnd(s: string): Parsed<()> {
    if IsLineEnd(s, 0) then Parsed((), s[2..]) else Fail
  }

  /** The maximal run of characters satisfying `p`. When the run reaches the end of the text, the
      program reports it without advancing, so the rest is the whole text. */
  function Leading(s: string, p: char -> bool): (string, string) {
    var n := Span(s, p);
    if n == |s| then (s, s) else (s[..n], s[n..])
  }

  /** The known method of which `w` is an extension: only the literal's own length is compared. */
  function MethodOf(w: string): Option<Method> {
    if "GET" <= w then Some(Get)
    else if "POST" <= w then Some(Post)
    else if "HEAD" <= w then Some(Head)
    else if "PUT" <= w then Some(Put)
    else if "DELETE" <= w then Some(Delete)
    else if "CONNECT" <= w then Some(Connect)
    else if "OPTIONS" <= w then Some(Options)
    else if "TRACE" <= w then Some(Trace)
    else if "PATCH" <= w then Some(Patch)
    else None
  }

  function ParseMethod(s: string): Parsed<Method> {
    var (w, rest) := Leading(s, IsLetter);
    match MethodOf(w) case Some(m) => Parsed(m, rest) case None => Fail
  }

  function ParseURL(s: string): Parsed<string> {
    var n := Span(s, NotSpace);
    if n == 0 then Fail else Parsed(s[..n], s[n..])
  }

  function VersionOf(maj: char, min: char): Option<Version> {
    if maj == '0' then (if min == '9' then Some(Http09) else None)
    else if maj == '1' then (if min == '0' then Some(Http10) else if min == '1' then Some(Http11) else None)
    else Some(Http11)
  }

  /** A number of exactly one digit. */
  function ParseDigit(s: string): Parsed<char> {
    var (d, rest) := Leading(s, IsDigit);
    if |d| == 1 then Parsed(d[0], rest) else Fail
  }

  function ParseVersion(s: string): Parsed<Version> {
    var (w, r0) := Leading(s, IsLetter);
    if !MatchesAt(w, "http", 0) then Fail else
    var (_, r1) :- Expect(r0, '/');
    ParseVersionNumber(r1)
  }

  function ParseVersionNumber(s: string): Parsed<Version> {
    var (maj, r0) :- ParseDigit(s);
    if maj != '0' && maj != '1' && maj != '2' then Fail else
    var (_, r1) :- Expect(r0, '.');
    var (min, r2) :- ParseDigit(r1);
    match VersionOf(maj, min) case Some(v) => Parsed(v, r2) case None => Fail
  }

  /** The name of a field, its colon and the spaces after it. */
  function ParseName(s: string): Parsed<string> {
    var (name, r0) := Leading(s, IsLetter);
    var (_, r1) :- Expect(r0, ':');
    Parsed(name, r1[Span(r1, IsSpace)..])
  }

  /** The value of a field. A header must be followed by more text, so a line that ends the input is refused. */
  function ParseValue(s: string): Parsed<string> {
    match LineEnd(s)
    case None => Fail
    case Some(e) => if e + 2 == |s| then Fail else Parsed(s[..e], s[e + 2..])
  }

  function ParseField(s: string): (r: Parsed<Field>)
    ensures r.Parsed? ==> |r.rest| < |s|
  {
    var (name, r0) :- ParseName(s);
    var (value, r1) :- ParseValue(r0);
    Parsed(Field(name, value), r1)
  }

  /** Header lines up to, and not including, the blank line. */
  function ParseFields(s: string): Parsed<seq<Field>>
    decreases |s|
  {
    if IsLineEnd(s, 0) then Parsed([], s)
    else
      var (f, r) :- ParseField(s);
      var (fs, rest) :- ParseFields(r);
      Parsed([f] + fs, rest)
  }

  function Digit(c: char): int {
    c as int - '0' as int
  }

  function Decimal(s: string): int {
    if s == "" then 0 else Decimal(s[..|s| - 1]) * 10 + Digit(s[|s| - 1])
  }

  function ParseTail(s: string): Parsed<seq<Field>> {
    var (fs, r0) :- ParseFields(s);
    var (_, r1) :- ExpectLineEnd(r0);
    Parsed(fs, r1)
  }

  /** A request line that begins with a slash (the HTTP/0.9 form) is read up to its first space and
      then must be followed by a line end, which a space or the end of the text never is. */
  function ParseRequest(s: string): Option<Request> {
    if s == "" || s[0] == '/' then None else
    match ParseRequestLine(s)
    case Fail => None
    case Parsed((m, url, v), r0) =>
      match ParseTail(r0)
      case Fail => None
      case Parsed(fs, body) => Some(Request(m, url, v, AsStruct(fs), body))
  }

  function ParseRequestLine(s: string): Parsed<(Method, string, Version)> {
    var (m, r0) :- ParseMethod(s);
    var (_, r1) :- Expect(r0, ' ');
    ParseTarget(m, r1)
  }

  function ParseTarget(m: Method, s: string): Parsed<(Method, string, Version)> {
    var (url, r0) :- ParseURL(s);
    var (_, r1) :- Expect(r0, ' ');
    var (v, r2) :- ParseVersion(r1);
    var (_, r3) :- ExpectLineEnd(r2);
    Parsed((m, url, v), r3)
  }

  function ParseStatusLine(s: string): Parsed<(Version, int, string)> {
    var (v, r0) :- ParseVersion(s);
    var (_, r1) :- Expect(r0, ' ');
    ParseStatus(v, r1)
  }

  function ParseStatus(v: Version, s: string): Parsed<(Version, int, string)> {
    var (code, r0) := Leading(s, IsDigit);
    if |code| != 3 || code[0] <= '0' || code[0] > '5' then Fail else
    var (_, r1) :- Expect(r0, ' ');
    match LineEnd(r1)
    case None => Fail
    case Some(e) => Parsed((v, Decimal(code), r1[..e]), r1[e + 2..])
  }

  function ParseResponse(s: string): Option<Response> {
    match ParseStatusLine(s)
    case Fail => None
    case Parsed((v, code, msg), r0) =>
      match ParseTail(r0)
      case Fail => None
      case Parsed(fs, body) => Some(Response(v, code, msg, AsStruct(fs), body))
  }

  // ---- Serialized forms

  function FieldText(f: Field): string {
    f.name + ":" + f.value + CRLF
  }

  function FieldsText(fs: seq<Field>): string {
    if fs == [] then "" else FieldText(fs[0]) + FieldsText(fs[1..])
  }

  /** Division and remainder of C: the quotient is truncated toward zero. */
  function TruncDiv10(a: int): int {
    if a < 0 then -((-a) / 10) else a / 10
  }

  function LastDigit(a: int): char {
    (a - 10 * TruncDiv10(a) + '0' as int) as char
  }

  function StatusText(code: int): string {
    [LastDigit(TruncDiv10(TruncDiv10(code))), LastDigit(TruncDiv10(code)), LastDigit(code)]
  }

  /** A header that owns its string is not serializable. */
  function HeaderText(h: Header): Option<string> {
    match h
    case AsStruct(fs) => Some(FieldsText(fs))
    case AsString(t) => Some(t)
    case AsOwnedString(_) => None
  }

  function RequestLineText(r: Request): string {
    MethodText(r.meth) + " " + r.url + " " + VersionText(r.version) + CRLF
  }

  function RequestText(r: Request): Option<string> {
    match HeaderText(r.head)
    case Some(h) => Some(RequestLineText(r) + h + CRLF + r.body)
    case None => None
  }

  function StatusLineText(r: Response): string {
    VersionText(r.version) + " " + StatusText(r.statusCode) + " " + r.statusMsg + CRLF
  }

  function ResponseText(r: Response): Option<string> {
    match HeaderText(r.head)
    case Some(h) => Some(StatusLineText(r) + h + CRLF + r.body)
    case None => None
  }

  // ---- Messages that survive the round trip

  predicate WfField(f: Field) {
    && (forall i | 0 <= i < |f.name| :: IsLetter(f.name[i]))
    && (f.value == "" || f.value[0] != ' ')
    && LineEnd(f.value).None?
  }

  predicate WfFields(fs: seq<Field>) {
    forall i | 0 <= i < |fs| :: WfField(fs[i])
  }

  predicate WfRequest(r: Request) {
    r.head.AsStruct? && WfFields(r.head.fields) && r.url != "" && ' ' !in r.url
  }

  predicate WfResponse(r: Response) {
    r.head.AsStruct? && WfFields(r.head.fields) && 100 <= r.statusCode <= 599 && LineEnd(r.statusMsg).None?
  }
}
