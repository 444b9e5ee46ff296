/** lib/http/parsing.c: cursor-moving parsers, proved to compute the functions of HttpSyntax. */
module Parsing {
  import opened Text
  import opened Http
  import opened HttpSyntax

  /** A reference to text owned by someone else: a position in a buffer and a remaining length. */
  class StringRef {
    const buf: array<char>
    var pos: nat
    var len: nat

    ghost predicate Valid()
      reads this
    {
      pos + len <= buf.Length
    }

    ghost function View(): string
      reads this, buf
      requires Valid()
    {
      buf[pos..pos + len]
    }

    constructor (buf: array<char>, pos: nat, len: nat)
      requires pos + len <= buf.Length
      ensures Valid() && this.buf == buf && View() == buf[pos..pos + len]
    {
      this.buf := buf;
      this.pos := pos;
      this.len := len;
    }

    /** Moves the start of the reference `i` bytes forward. */
    method Advance(i: nat)
      requires Valid() && i <= len
      modifies this
      ensures Valid() && pos == old(pos) + i && len == old(len) - i && View() == old(View())[i..]
    {
      pos := pos + i;
      len := len - i;
    }
  }

  lemma Subslices(s: string, start: nat, n: nat, e: nat)
    requires e <= n && start + n <= |s|
    ensures s[start..start + n][..e] == s[start..start + e]
    ensures s[start..start + n][e..] == s[start + e..start + n]
  {
  }

  method ExpectChar(str: StringRef, c: char) returns (err: bool)
    requires str.Valid()
    modifies str
    ensures str.Valid()
    ensures match Expect(old(str.View()), c)
            case Fail => err && str.View() == old(str.View())
            case Parsed(_, rest) => !err && str.View() == rest
  {
    if str.len == 0 || str.buf[str.pos] != c {
      return true;
    }
    assert str.View()[0] == str.buf[str.pos];
    str.Advance(1);
    err := false;
  }

  method ExpectNewline(str: StringRef) returns (err: bool)
    requires str.Valid()
    modifies str
    ensures str.Valid()
    ensures match ExpectLineEnd(old(str.View()))
            case Fail => err && str.View() == old(str.View())
            case Parsed(_, rest) => !err && str.View() == rest
  {
    if str.len <= 1 || str.buf[str.pos] != '\r' || str.buf[str.pos + 1] != '\n' {
      return true;
    }
    str.Advance(2);
    err := false;
  }

  /** The loop shared by parseWord and parseNumber, which differ in the class of characters only. */
  method ParseLeading(str: StringRef, p: char -> bool) returns (out: string)
    requires str.Valid()
    modifies str
    ensures str.Valid() && (out, str.View()) == Leading(old(str.View()), p)
  {
    ghost var s := str.View();
    var i := 0;
    while i < str.len
      invariant 0 <= i <= str.len && str.Valid() && str.View() == s
      invariant forall k | 0 <= k < i :: p(s[k])
    {
      var c := str.buf[str.pos + i];
      assert c == s[i];
      if !p(c) {
        SpanIs(s, p, i);
        out := str.buf[str.pos..str.pos + i];
        Subslices(str.buf[..], str.pos, |s|, i);
        str.Advance(i);
        return;
      }
      i := i + 1;
    }
    SpanIs(s, p, |s|);
    out := str.buf[str.pos..str.pos + str.len];
  }

  method ParseMethodName(str: StringRef) returns (err: bool, m: Method)
    requires str.Valid()
    modifies str
    ensures str.Valid()
    ensures match ParseMethod(old(str.View()))
            case Fail => err
            case Parsed(m', rest) => !err && m == m' && str.View() == rest
  {
    var ms := ParseLeading(str, IsLetter);
    match MethodOf(ms)
    case Some(m') => err, m := false, m';
    case None => err, m := true, Get;
  }

  method ParseUrl(str: StringRef) returns (err: bool, url: string)
    requires str.Valid()
    modifies str
    ensures str.Valid()
    ensures match ParseURL(old(str.View()))
            case Fail => err
            case Parsed(u, rest) => !err && url == u && str.View() == rest
  {
    ghost var s := str.View();
    var i := 0;
    while i < str.len
      invariant 0 <= i <= str.len && str.Valid() && str.View() == s
      invariant forall k | 0 <= k < i :: NotSpace(s[k])
      invariant i == str.len || NotSpace(s[i]) || s[i] == ' '
    {
      assert str.buf[str.pos + i] == s[i];
      if str.buf[str.pos + i] == ' ' {
        break;
      }
      i := i + 1;
    }
    SpanIs(s, NotSpace, i);
    url := str.buf[str.pos..str.pos + i];
    Subslices(str.buf[..], str.pos, |s|, i);
    str.Advance(i);
    err := i == 0;
  }

  /** Whether the first characters of `s1` are those of `literal`, ignoring case. */
  method LowerEqLiteral(s1: string, literal: string) returns (eq: bool)
    ensures eq == MatchesAt(s1, literal, 0)
  {
    var i := 0;
    while i < |literal|
      invariant 0 <= i <= |literal| && i <= |s1|
      invariant forall k | 0 <= k < i :: ToLower(s1[0 + k]) == ToLower(literal[k])
    {
      if i == |s1| || ToLower(s1[i]) != ToLower(literal[i]) {
        assert i < |s1| ==> ToLower(s1[0 + i]) != ToLower(literal[i]);
        return false;
      }
      i := i + 1;
    }
    eq := true;
  }

  /** A number that must have exactly one digit. */
  method ParseDigitOf(str: StringRef) returns (err: bool, d: char)
    requires str.Valid()
    modifies str
    ensures str.Valid()
    ensures match ParseDigit(old(str.View()))
            case Fail => err
            case Parsed(d', rest) => !err && d == d' && str.View() == rest
  {
    var number := ParseLeading(str, IsDigit);
    if |number| != 1 { return true, '0'; }
    err, d := false, number[0];
  }

  method ParseVersionNumberOf(str: StringRef) returns (err: bool, v: Version)
    requires str.Valid()
    modifies str
    ensures str.Valid()
    ensures match ParseVersionNumber(old(str.View()))
            case Fail => err
            case Parsed(v', rest) => !err && v == v' && str.View() == rest
  {
    hide ParseDigit;
    v := Http09;
    var major, minor;
    err, major := ParseDigitOf(str);
    if err || (major != '0' && major != '1' && major != '2') { return true, v; }
    err := ExpectChar(str, '.');
    if err { return; }
    err, minor := ParseDigitOf(str);
    if err { return; }
    var maj, min := Digit(major), Digit(minor);
    if maj == 0 {
      if min != 9 { return true, v; }
      v := Http09;
    } else if maj == 1 {
      if min != 0 && min != 1 { return true, v; }
      v := if min == 0 then Http10 else Http11;
    } else {
      v := Http11;
    }
  }

  method ParseHttpVersion(str: StringRef) returns (err: bool, v: Version)
    requires str.Valid()
    modifies str
    ensures str.Valid()
    ensures match ParseVersion(old(str.View()))
            case Fail => err
            case Parsed(v', rest) => !err && v == v' && str.View() == rest
  {
    hide Leading;
    hide ParseVersionNumber;
    hide MatchesAt;
    v := Http09;
    var http := ParseLeading(str, IsLetter);
    var eq := LowerEqLiteral(http, "http");
    if !eq { return true, v; }
    err := ExpectChar(str, '/');
    if err { return; }
    err, v := ParseVersionNumberOf(str);
  }

  // ---- Header

  /** The characters before the value contain no carriage return, so no line end starts there. */
  lemma NoLineEndBeforeValue(s: string)
    ensures ParseName(s).Parsed? ==>
              var r := ParseName(s).rest;
              && 0 < |s| - |r| && r == s[|s| - |r|..]
              && forall k: nat | k < |s| - |r| :: !IsLineEnd(s, k)
  {
    hide Span;
    var n := Span(s, IsLetter);
    if n < |s| && s[n] == ':' {
      var r1 := s[n + 1..];
      assert s[n..][1..] == r1;
      var m := Span(r1, IsSpace);
      assert r1[m..] == s[n + 1 + m..];
      forall k: nat | k < n + 1 + m ensures !IsLineEnd(s, k) {
        if k > n { assert s[k] == r1[k - n - 1]; }
      }
    }
  }

  /** A field takes up exactly one line: the line end it finds is the first one of the text it was given. */
  lemma FieldConsumesOneLine(s: string)
    ensures ParseField(s).Parsed? ==>
              LineEnd(s).Some? && LineEnd(s).value > 0 && ParseField(s).rest == s[LineEnd(s).value + 2..]
  {
    hide ParseName;
    hide LineEnd;
    NoLineEndBeforeValue(s);
    if ParseField(s).Parsed? {
      LineEndInSuffix(s, |s| - |ParseName(s).rest|);
    }
  }

  method SkipSpaces(str: StringRef)
    requires str.Valid()
    modifies str
    ensures str.Valid() && str.View() == old(str.View())[Span(old(str.View()), IsSpace)..]
  {
    hide Span;
    ghost var s := str.View();
    ghost var from := str.pos;
    while str.len > 0 && str.buf[str.pos] == ' '
      invariant str.Valid() && from <= str.pos && str.pos + str.len == from + |s|
      invariant s == str.buf[from..from + |s|]
      invariant forall k | 0 <= k < str.pos - from :: IsSpace(s[k])
    {
      assert s[str.pos - from] == ' ';
      str.pos, str.len := str.pos + 1, str.len - 1;
    }
    assert str.len > 0 ==> s[str.pos - from] == str.buf[str.pos];
    SpanIs(s, IsSpace, str.pos - from);
    assert str.View() == s[str.pos - from..];
  }

  /** Moves to the first line end; without one, all but the last byte is skipped. */
  method SkipToLineEnd(str: StringRef)
    requires str.Valid()
    modifies str
    ensures str.Valid() && str.pos + str.len == old(str.pos) + old(str.len) && old(str.pos) <= str.pos
    ensures old(str.len) > 0 ==> str.len > 0
    ensures match LineEnd(old(str.View()))
            case None => |str.View()| <= 1
            case Some(e) => str.pos == old(str.pos) + e
  {
    ghost var s := str.View();
    ghost var start := str.pos;
    while str.len > 1 && (str.buf[str.pos] != '\r' || str.buf[str.pos + 1] != '\n')
      invariant str.Valid() && start <= str.pos && str.pos + str.len == start + |s| && (s != "" ==> str.len > 0)
      invariant s == str.buf[start..start + |s|]
      invariant forall k: nat | k < str.pos - start :: !IsLineEnd(s, k)
    {
      assert !IsLineEnd(s, str.pos - start);
      str.pos, str.len := str.pos + 1, str.len - 1;
    }
    ghost var n := str.pos - start;
    if str.len > 1 {
      assert IsLineEnd(s, n);
      LineEndIs(s, n);
    } else {
      assert forall k: nat :: !IsLineEnd(s, k);
    }
  }

  /** Steps past the line end at which the search for it stopped. There is nothing behind it when the
      text ends with it, or when the search stopped, without finding one, at the last byte. */
  method StepPastLineEnd(str: StringRef) returns (atEnd: bool)
    requires str.Valid() && (IsLineEnd(str.View(), 0) || str.len == 1)
    modifies str
    ensures str.Valid()
    ensures atEnd <==> |old(str.View())| <= 2
    ensures !atEnd ==> str.View() == old(str.View())[2..]
  {
    ghost var s := str.View();
    var end, n := str.pos, str.len;
    assert n > 1 ==> s[0] == str.buf[end] && s[1] == str.buf[end + 1];
    while true
      invariant str.Valid() && str.len >= 1 && end <= str.pos <= end + 1
      invariant str.pos + str.len == end + n
      decreases str.len
    {
      str.len := str.len - 1;
      if str.len == 0 { break; }
      str.pos := str.pos + 1;
      if str.buf[str.pos - 1] == '\n' { break; }
    }
    atEnd := str.len == 0;
  }

  method ParseNameOf(str: StringRef) returns (err: bool, name: string)
    requires str.Valid()
    modifies str
    ensures str.Valid()
    ensures match ParseName(old(str.View()))
            case Fail => err
            case Parsed(n, rest) => !err && name == n && str.View() == rest
  {
    hide Leading;
    hide Span;
    name := ParseLeading(str, IsLetter);
    err := ExpectChar(str, ':');
    if err { return; }
    SkipSpaces(str);
  }

  /** The rest of a line, which must not be the last thing in the text. */
  method ParseValueOf(str: StringRef) returns (err: bool, value: string)
    requires str.Valid() && str.len > 0
    modifies str
    ensures str.Valid()
    ensures match ParseValue(old(str.View()))
            case Fail => err
            case Parsed(v, rest) => !err && value == v && str.View() == rest
  {
    hide LineEnd;
    ghost var r, bytes := str.View(), str.buf[..];
    var start := str.pos;
    assert r == bytes[start..start + |r|];
    SkipToLineEnd(str);
    var end := str.pos;
    ghost var e := end - start;
    Subslices(bytes, start, |r|, e);
    assert str.View() == bytes[end..end + str.len] == r[e..];
    value := str.buf[start..end];
    assert value == bytes[start..end];
    assert LineEnd(r).Some? ==> IsLineEnd(r, e) && IsLineEnd(str.View(), 0);
    err := StepPastLineEnd(str);
    if !err { assert r[e..][2..] == r[e + 2..]; }
  }

  /** Text follows the name, the colon and the spaces. Where none does, the program's count of the bytes
      left wraps around, and it reads past the end. */
  predicate MoreAfterName(s: string) {
    ParseName(s).Parsed? ==> ParseName(s).rest != ""
  }

  method ParseHeaderField(str: StringRef) returns (err: bool, h: Field)
    requires str.Valid()
    requires MoreAfterName(str.View())
    modifies str
    ensures str.Valid()
    ensures match ParseField(old(str.View()))
            case Fail => err
            case Parsed(f, rest) => !err && h == f && str.View() == rest
  {
    var name, value;
    err, name := ParseNameOf(str);
    h := Field(name, "");
    if err { return; }
    err, value := ParseValueOf(str);
    h := Field(name, value);
  }

  /** Number of line ends before the first one that ends an empty line (or before the end of the text). */
  function Lines(s: string): nat
    decreases |s|
  {
    match LineEnd(s)
    case None => 0
    case Some(e) => if e == 0 then 0 else 1 + Lines(s[e + 2..])
  }

  /** The second pass on its own: exactly `n` fields, then the blank line. */
  function ExactFields(s: string, n: nat): Parsed<seq<Field>>
    decreases n
  {
    if n == 0 then
      if IsLineEnd(s, 0) then Parsed([], s) else Fail
    else
      var (f, r) :- ParseField(s);
      var (fs, rest) :- ExactFields(r, n - 1);
      Parsed([f] + fs, rest)
  }

  /** Counting the lines first and then parsing exactly that many fields accepts the same headers,
      with the same fields, as parsing field by field up to the blank line. */
  lemma {:induction false} TwoPassesAgree(s: string)
    ensures ExactFields(s, Lines(s)) == ParseFields(s)
    decreases |s|
  {
    hide ParseField;
    FieldConsumesOneLine(s);
    match LineEnd(s) {
      case None =>
      case Some(e) =>
        if e > 0 { TwoPassesAgree(s[e + 2..]); }
    }
  }

  /** The line count of the text from `from` on, when its first line end starts at `at`. */
  lemma LinesStep(s: string, from: nat, at: nat)
    requires from <= at && IsLineEnd(s, at)
    requires forall k: nat | from <= k < at :: !IsLineEnd(s, k)
    ensures Lines(s[from..]) == if at == from then 0 else 1 + Lines(s[at + 2..])
  {
    var t := s[from..];
    assert IsLineEnd(t, at - from);
    forall k: nat | k < at - from ensures !IsLineEnd(t, k) {
      assert !IsLineEnd(s, from + k);
    }
    LineEndIs(t, at - from);
    assert t[at - from + 2..] == s[at + 2..];
  }

  lemma NoMoreLines(s: string, from: nat, at: nat)
    requires from <= at <= |s| <= at + 1
    requires forall k: nat | from <= k < at :: !IsLineEnd(s, k)
    ensures Lines(s[from..]) == 0
  {
    forall k: nat ensures !IsLineEnd(s[from..], k) {
      if from + k < at { assert !IsLineEnd(s, from + k); }
    }
  }

  lemma FieldIsALine(s: string)
    ensures ParseField(s).Parsed? ==> Lines(s) == 1 + Lines(ParseField(s).rest)
    ensures Lines(s) > 0 ==> MoreAfterName(s)
  {
    FieldConsumesOneLine(s);
    NoLineEndBeforeValue(s);
  }

  /** The first pass: the number of lines of a header that is not empty. */
  method CountLines(str: StringRef) returns (isEmpty: bool, count: nat)
    requires str.Valid() && str.len >= 1
    ensures isEmpty <==> IsLineEnd(str.View(), 0)
    ensures !isEmpty ==> count == Lines(str.View())
  {
    hide Lines;
    hide LineEnd;
    ghost var s := str.View();
    ghost var lineStart := 0;
    assert s[lineStart..] == s;
    var lastWasNl, isBeginning := false, true;
    count := 0;
    var i := 0;
    while i < str.len - 1
      invariant 0 <= lineStart <= i <= |s|
      invariant isBeginning <==> i == 0
      invariant lastWasNl <==> i > 0 && i == lineStart
      invariant i > 0 ==> !IsLineEnd(s, 0)
      invariant forall k: nat | lineStart <= k < i :: !IsLineEnd(s, k)
      invariant Lines(s) == count + Lines(s[lineStart..])
    {
      assert s[i] == str.buf[str.pos + i] && s[i + 1] == str.buf[str.pos + i + 1];
      if str.buf[str.pos + i] == '\r' && str.buf[str.pos + i + 1] == '\n' {
        if isBeginning {
          return true, 0;
        }
        LinesStep(s, lineStart, i);
        if lastWasNl {
          return false, count;
        }
        lastWasNl := true;
        count, i := count + 1, i + 1;
        lineStart := i + 1;
      } else {
        lastWasNl := false;
      }
      isBeginning := false;
      i := i + 1;
    }
    NoMoreLines(s, lineStart, i);
    isEmpty := false;
  }

  /** Parsing `n` more fields of `s` after the fields `done` completes the overall result `all`. */
  ghost predicate Completes(all: Parsed<seq<Field>>, done: seq<Field>, s: string, n: nat) {
    match ExactFields(s, n)
    case Fail => all.Fail?
    case Parsed(fs, rest) => all == Parsed(done + fs, rest)
  }

  lemma CompletesStep(all: Parsed<seq<Field>>, done: seq<Field>, s: string, n: nat)
    requires n > 0 && Completes(all, done, s, n)
    ensures match ParseField(s)
            case Fail => all.Fail?
            case Parsed(f, r) => Completes(all, done + [f], r, n - 1)
  {
    hide ParseField;
    match ParseField(s)
    case Fail =>
    case Parsed(f, r) =>
      match ExactFields(r, n - 1) {
        case Fail =>
        case Parsed(fs, _) => assert done + ([f] + fs) == done + [f] + fs;
      }
  }

  lemma CompletesAtEnds(all: Parsed<seq<Field>>, done: seq<Field>, s: string, n: nat)
    ensures all == ExactFields(s, n) ==> Completes(all, [], s, n)
    ensures Completes(all, done, s, 0) ==> all == if IsLineEnd(s, 0) then Parsed(done, s) else Fail
  {
    assert done + [] == done;
    if all == ExactFields(s, n) && all.Parsed? { assert [] + all.value == all.value; }
  }

  /** The second pass, over a header whose lines have been counted. */
  method ParseCounted(str: StringRef, count: nat) returns (err: bool, fields: seq<Field>)
    requires str.Valid() && count == Lines(str.View())
    modifies str
    ensures str.Valid()
    ensures match ExactFields(old(str.View()), count)
            case Fail => err
            case Parsed(fs, rest) => !err && fields == fs && str.View() == rest
  {
    hide Lines;
    hide ParseField;
    hide MoreAfterName;
    hide LineEnd;
    hide ExactFields;
    hide Completes;
    ghost var all := ExactFields(str.View(), count);
    CompletesAtEnds(all, [], str.View(), count);
    var hf := new Field[count];
    var i := 0;
    assert hf[..0] == [];
    while i < count
      invariant 0 <= i <= count && str.Valid()
      invariant count - i == Lines(str.View())
      invariant Completes(all, hf[..i], str.View(), count - i)
    {
      ghost var done := hf[..i];
      FieldIsALine(str.View());
      CompletesStep(all, done, str.View(), count - i);
      var h;
      err, h := ParseHeaderField(str);
      if err {
        return true, [];
      }
      hf[i] := h;
      i := i + 1;
      assert hf[..i] == done + [h];
    }
    assert hf[..count] == hf[..];
    CompletesAtEnds(all, hf[..], str.View(), 0);
    if str.len <= 1 || str.buf[str.pos] != '\r' || str.buf[str.pos + 1] != '\n' {
      return true, [];
    }
    err, fields := false, hf[..];
  }

  method ParseHeaderStruct(str: StringRef) returns (err: bool, fields: seq<Field>)
    requires str.Valid()
    modifies str
    ensures str.Valid()
    ensures match ParseFields(old(str.View()))
            case Fail => err
            case Parsed(fs, rest) => !err && fields == fs && str.View() == rest
  {
    hide ParseField;
    hide ExactFields;
    hide Lines;
    TwoPassesAgree(str.View());
    if str.len == 0 {
      NoFieldInNothing();
      assert str.View() == "";
      return true, [];  // an empty text is no header
    }
    var isEmpty, count := CountLines(str);
    if isEmpty {
      return false, [];
    }
    err, fields := ParseCounted(str, count);
  }

  lemma NoFieldInNothing()
    ensures ParseField("").Fail?
  {
  }

  // ---- Messages

  method ParseTailOf(str: StringRef) returns (err: bool, fields: seq<Field>)
    requires str.Valid()
    modifies str
    ensures str.Valid()
    ensures match ParseTail(old(str.View()))
            case Fail => err
            case Parsed(fs, rest) => !err && fields == fs && str.View() == rest
  {
    err, fields := ParseHeaderStruct(str);
    if err { return; }
    err := ExpectNewline(str);
  }

  /** The request line of an HTTP request, or of the older form that is a bare path. */
  method ParseRequestLineOf(str: StringRef) returns (err: bool, m: Method, url: string, v: Version)
    requires str.Valid() && str.len > 0
    modifies str
    ensures str.Valid()
    ensures old(str.View())[0] == '/' ==> err
    ensures old(str.View())[0] != '/' ==>
              match ParseRequestLine(old(str.View()))
              case Fail => err
              case Parsed(line, rest) => !err && (m, url, v) == line && str.View() == rest
  {
    m, url, v := Get, "", Http09;
    assert str.View()[0] == str.buf[str.pos];
    if str.buf[str.pos] == '/' {
      err, url := ParseUrl(str);
      if err { return; }
      assert str.View() != "" ==> str.View()[0] == ' ';
      err := ExpectNewline(str);
      return;
    }
    err, m := ParseMethodName(str);
    if err { return; }
    err := ExpectChar(str, ' ');
    if err { return; }
    err, url := ParseUrl(str);
    if err { return; }
    err := ExpectChar(str, ' ');
    if err { return; }
    err, v := ParseHttpVersion(str);
    if err { return; }
    err := ExpectNewline(str);
  }

  method ParseHttpRequest(str: StringRef) returns (r: Option<Request>)
    requires str.Valid()
    modifies str
    ensures r == ParseRequest(old(str.View()))
  {
    if str.len == 0 { return None; }
    var err, m, url, v := ParseRequestLineOf(str);
    if err { return None; }
    var fields;
    err, fields := ParseTailOf(str);
    if err { return None; }
    r := Some(Request(m, url, v, AsStruct(fields), str.buf[str.pos..str.pos + str.len]));
  }

  method StrToInt(data: string) returns (out: int)
    ensures out == Decimal(data)
  {
    out := 0;
    var i := 0;
    while i < |data|
      invariant 0 <= i <= |data| && out == Decimal(data[..i])
    {
      assert data[..i + 1][..i] == data[..i];
      out := out * 10 + Digit(data[i]);
      i := i + 1;
    }
    assert data[..|data|] == data;
  }

  method ParseStatusMsg(str: StringRef) returns (err: bool, msg: string)
    requires str.Valid()
    modifies str
    ensures str.Valid()
    ensures match LineEnd(old(str.View()))
            case None => err
            case Some(e) => !err && msg == old(str.View())[..e] && str.View() == old(str.View())[e + 2..]
  {
    hide LineEnd;
    ghost var s := str.View();
    var start, len := str.pos, str.len;
    assert s == str.buf[..][start..start + len];
    SkipToLineEnd(str);
    msg := str.buf[start..start + (len - str.len)];
    Subslices(str.buf[..], start, len, len - str.len);
    assert msg == s[..len - str.len] && str.View() == s[len - str.len..];
    err := ExpectNewline(str);
  }

  method ParseStatusOf(str: StringRef, v: Version) returns (err: bool, code: int, msg: string)
    requires str.Valid()
    modifies str
    ensures str.Valid()
    ensures match ParseStatus(v, old(str.View()))
            case Fail => err
            case Parsed(line, rest) => !err && (v, code, msg) == line && str.View() == rest
  {
    hide Leading;
    hide LineEnd;
    hide Decimal;
    code, msg := 0, "";
    var digits := ParseLeading(str, IsDigit);
    if |digits| != 3 || digits[0] <= '0' || digits[0] > '5' { return true, code, msg; }
    code := StrToInt(digits);
    err := ExpectChar(str, ' ');
    if err { return; }
    err, msg := ParseStatusMsg(str);
  }

  method ParseHttpResponse(str: StringRef) returns (r: Option<Response>)
    requires str.Valid()
    modifies str
    ensures r == ParseResponse(old(str.View()))
  {
    hide ParseStatus;
    hide ParseVersion;
    hide ParseTail;
    var err, v := ParseHttpVersion(str);
    if err { return None; }
    err := ExpectChar(str, ' ');
    if err { return None; }
    var code, msg;
    err, code, msg := ParseStatusOf(str, v);
    if err { return None; }
    var fields;
    err, fields := ParseTailOf(str);
    if err { return None; }
    r := Some(Response(v, code, msg, AsStruct(fields), str.buf[str.pos..str.pos + str.len]));
  }
}
