/** The parsers and serializers of HTTP messages are inverse to each other on exactly the
    well-formed messages. */
module RoundTrip {
  import opened Text
  import opened Http
  import opened HttpSyntax

  // ---- One piece followed by more text

  lemma Assoc(a: string, b: string, c: string)
    ensures a + b + c == a + (b + c)
  {
  }

  lemma LeadingOf(w: string, rest: string, p: char -> bool)
    requires forall i | 0 <= i < |w| :: p(w[i])
    requires rest != "" && !p(rest[0])
    ensures Leading(w + rest, p) == (w, rest)
  {
    SpanIs(w + rest, p, |w|);
    assert (w + rest)[..|w|] == w && (w + rest)[|w|..] == rest;
  }

  /** A text without a line end of its own, followed by one: the first line end is that one. */
  lemma FindLineEnd(v: string, rest: string)
    requires LineEnd(v).None?
    ensures LineEnd(v + CRLF + rest) == Some(|v|)
    ensures (v + CRLF + rest)[..|v|] == v && (v + CRLF + rest)[|v| + 2..] == rest
  {
    var s := v + CRLF + rest;
    forall k: nat | k < |v| ensures !IsLineEnd(s, k) {
      assert !IsLineEnd(v, k);
    }
    LineEndIs(s, |v|);
  }

  lemma MethodWord(m: Method)
    ensures MethodOf(MethodText(m)) == Some(m)
    ensures forall i | 0 <= i < |MethodText(m)| :: IsLetter(MethodText(m)[i])
  {
    // No method name is a prefix of another: the first two letters tell them apart.
    var w := MethodText(m);
    assert "GET" <= w ==> w[0] == 'G';
    assert "POST" <= w ==> w[0] == 'P' && w[1] == 'O';
    assert "HEAD" <= w ==> w[0] == 'H';
    assert "PUT" <= w ==> w[0] == 'P' && w[1] == 'U';
    assert "DELETE" <= w ==> w[0] == 'D';
    assert "CONNECT" <= w ==> w[0] == 'C';
    assert "OPTIONS" <= w ==> w[0] == 'O';
    assert "TRACE" <= w ==> w[0] == 'T';
  }

  lemma MethodRoundTrip(m: Method, rest: string)
    requires rest != "" && !IsLetter(rest[0])
    ensures ParseMethod(MethodText(m) + rest) == Parsed(m, rest)
  {
    MethodWord(m);
    LeadingOf(MethodText(m), rest, IsLetter);
  }

  lemma VersionNumberParts(maj: char, min: char, rest: string)
    requires '0' <= maj <= '2' && IsDigit(min)
    requires rest != "" && !IsDigit(rest[0])
    ensures ParseVersionNumber([maj] + ("." + ([min] + rest))) ==
            match VersionOf(maj, min) case Some(v) => Parsed(v, rest) case None => Fail
  {
    var r1 := [min] + rest;
    LeadingOf([maj], "." + r1, IsDigit);
    LeadingOf([min], rest, IsDigit);
    assert ("." + r1)[1..] == r1;
  }

  /** Any word that begins with "http", in any case, introduces a version. */
  lemma AfterHttpWord(w: string, rest: string)
    requires (forall i | 0 <= i < |w| :: IsLetter(w[i])) && MatchesAt(w, "http", 0)
    ensures ParseVersion(w + ("/" + rest)) == ParseVersionNumber(rest)
  {
    LeadingOf(w, "/" + rest, IsLetter);
    assert ("/" + rest)[1..] == rest;
  }

  lemma HttpIsHttp()
    ensures (forall i | 0 <= i < |"HTTP"| :: IsLetter("HTTP"[i])) && MatchesAt("HTTP", "http", 0)
  {
  }

  lemma VersionParts(maj: char, min: char, rest: string)
    requires '0' <= maj <= '2' && IsDigit(min)
    requires rest != "" && !IsDigit(rest[0])
    ensures ParseVersion("HTTP" + ("/" + ([maj] + ("." + ([min] + rest))))) ==
            match VersionOf(maj, min) case Some(v) => Parsed(v, rest) case None => Fail
  {
    hide ParseVersion;
    hide ParseVersionNumber;
    hide MatchesAt;
    HttpIsHttp();
    AfterHttpWord("HTTP", [maj] + ("." + ([min] + rest)));
    VersionNumberParts(maj, min, rest);
  }

  lemma VersionTextSplit(v: Version, rest: string) returns (maj: char, min: char)
    ensures '0' <= maj <= '2' && IsDigit(min) && VersionOf(maj, min) == Some(v)
    ensures VersionText(v) + rest == "HTTP" + ("/" + ([maj] + ("." + ([min] + rest))))
  {
    match v {
      case Http09 => maj, min := '0', '9'; assert "HTTP/0.9" == "HTTP/" + ['0'] + "." + ['9'];
      case Http10 => maj, min := '1', '0'; assert "HTTP/1.0" == "HTTP/" + ['1'] + "." + ['0'];
      case Http11 => maj, min := '1', '1'; assert "HTTP/1.1" == "HTTP/" + ['1'] + "." + ['1'];
    }
    assert "HTTP/" == "HTTP" + "/";
    Assoc5("HTTP", "/", [maj], ".", [min], rest);
  }

  lemma Assoc5(a: string, b: string, c: string, d: string, e: string, rest: string)
    ensures a + b + c + d + e + rest == a + (b + (c + (d + (e + rest))))
  {
    Assoc(a + b + c + d, e, rest);
    Assoc(a + b + c, d, e + rest);
    Assoc(a + b, c, d + (e + rest));
    Assoc(a, b, c + (d + (e + rest)));
  }

  lemma VersionRoundTrip(v: Version, rest: string)
    requires rest != "" && !IsDigit(rest[0])
    ensures ParseVersion(VersionText(v) + rest) == Parsed(v, rest)
  {
    var maj, min := VersionTextSplit(v, rest);
    VersionParts(maj, min, rest);
  }

  lemma URLRoundTrip(url: string, rest: string)
    requires url != "" && ' ' !in url
    requires rest != "" && rest[0] == ' '
    ensures ParseURL(url + rest) == Parsed(url, rest)
  {
    SpanIs(url + rest, NotSpace, |url|);
    assert (url + rest)[..|url|] == url && (url + rest)[|url|..] == rest;
  }

  lemma ValueOf(v: string, rest: string)
    requires LineEnd(v).None? && rest != ""
    ensures ParseValue(v + CRLF + rest) == Parsed(v, rest)
  {
    FindLineEnd(v, rest);
  }

  lemma NameOf(name: string, spaces: string, r: string)
    requires forall i | 0 <= i < |name| :: IsLetter(name[i])
    requires forall i | 0 <= i < |spaces| :: spaces[i] == ' '
    requires r != "" && r[0] != ' '
    ensures ParseName(name + (":" + (spaces + r))) == Parsed(name, r)
  {
    var r1 := spaces + r;
    LeadingOf(name, ":" + r1, IsLetter);
    assert (":" + r1)[1..] == r1;
    SpanIs(r1, IsSpace, |spaces|);
    assert r1[|spaces|..] == r;
  }

  lemma FieldParts(f: Field, spaces: string, rest: string)
    requires WfField(f) && rest != ""
    requires forall i | 0 <= i < |spaces| :: spaces[i] == ' '
    ensures ParseField(f.name + (":" + (spaces + (f.value + CRLF + rest)))) == Parsed(f, rest)
  {
    var r := f.value + CRLF + rest;
    assert r[0] == if f.value == "" then '\r' else f.value[0];
    NameOf(f.name, spaces, r);
    ValueOf(f.value, rest);
  }

  lemma FieldRoundTrip(f: Field, rest: string)
    requires WfField(f) && rest != ""
    ensures ParseField(FieldText(f) + rest) == Parsed(f, rest)
  {
    FieldTextSplit(f, rest);
    FieldParts(f, "", rest);
    assert "" + (f.value + CRLF + rest) == f.value + CRLF + rest;
  }

  lemma FieldTextSplit(f: Field, rest: string)
    ensures FieldText(f) + rest == f.name + (":" + (f.value + CRLF + rest))
  {
    Assoc5(f.name, ":", f.value, CRLF, "", rest);
    assert FieldText(f) == FieldText(f) + "";
    Assoc(f.value, CRLF, rest);
    assert "" + rest == rest;
  }

  lemma FieldsTextSplit(fs: seq<Field>, rest: string)
    requires fs != [] && WfField(fs[0])
    ensures FieldsText(fs) + rest == FieldText(fs[0]) + (FieldsText(fs[1..]) + rest)
    ensures !(IsLineEnd(FieldsText(fs) + rest, 0))
  {
    var f := fs[0];
    Assoc(FieldText(f), FieldsText(fs[1..]), rest);
    assert FieldText(f)[0] == if f.name == "" then ':' else f.name[0];
    assert (FieldText(f) + (FieldsText(fs[1..]) + rest))[0] == FieldText(f)[0];
  }

  lemma ParseFieldsCons(s: string, f: Field, r: string, fs: seq<Field>, rest: string)
    requires !IsLineEnd(s, 0) && ParseField(s) == Parsed(f, r) && ParseFields(r) == Parsed(fs, rest)
    ensures ParseFields(s) == Parsed([f] + fs, rest)
  {
    hide ParseField;
  }

  lemma {:induction false} FieldsRoundTrip(fs: seq<Field>, rest: string)
    requires WfFields(fs) && IsLineEnd(rest, 0)
    ensures ParseFields(FieldsText(fs) + rest) == Parsed(fs, rest)
  {
    if fs == [] {
      assert FieldsText(fs) + rest == rest;
    } else {
      var tail := FieldsText(fs[1..]) + rest;
      assert |tail| >= |rest| && fs == [fs[0]] + fs[1..];
      FieldsTextSplit(fs, rest);
      FieldsRoundTrip(fs[1..], rest);
      FieldRoundTrip(fs[0], tail);
      ParseFieldsCons(FieldsText(fs) + rest, fs[0], tail, fs[1..], rest);
    }
  }

  lemma TailRoundTrip(fs: seq<Field>, body: string)
    requires WfFields(fs)
    ensures ParseTail(FieldsText(fs) + CRLF + body) == Parsed(fs, body)
  {
    var rest := CRLF + body;
    assert IsLineEnd(rest, 0) && rest[2..] == body;
    Assoc(FieldsText(fs), CRLF, body);
    FieldsRoundTrip(fs, rest);
  }

  // ---- Whatever is parsed is well formed

  /** The text before the first line end has no line end. */
  lemma NoLineEndBefore(s: string)
    ensures LineEnd(s).Some? ==> LineEnd(s[..LineEnd(s).value]).None?
  {
    if LineEnd(s).Some? {
      var e := LineEnd(s).value;
      assert forall k: nat :: IsLineEnd(s[..e], k) ==> IsLineEnd(s, k);
    }
  }

  lemma ParsedFieldWf(s: string)
    ensures ParseField(s).Parsed? ==> WfField(ParseField(s).value)
  {
    if ParseField(s).Parsed? {
      NoLineEndBefore(ParseName(s).rest);
    }
  }

  lemma {:induction false} ParsedFieldsWf(s: string)
    ensures ParseFields(s).Parsed? ==> WfFields(ParseFields(s).value)
    decreases |s|
  {
    hide ParseField;
    hide WfField;
    if ParseFields(s).Parsed? && !IsLineEnd(s, 0) {
      var Parsed(f, r) := ParseField(s);
      ParsedFieldWf(s);
      ParsedFieldsWf(r);
      WfCons(f, ParseFields(r).value);
    }
  }

  lemma WfCons(f: Field, fs: seq<Field>)
    requires WfField(f) && WfFields(fs)
    ensures WfFields([f] + fs)
  {
    hide WfField;
  }

  /** Everything the request parser accepts is a well-formed request. */
  lemma ParsedRequestWf(s: string)
    ensures ParseRequest(s).Some? ==> WfRequest(ParseRequest(s).value)
  {
    if ParseRequest(s).Some? {
      ParsedFieldsWf(ParseRequestLine(s).rest);
    }
  }

  /** Three accepted digits denote a code between 100 and 599. */
  lemma StatusCodeRange(code: string)
    requires |code| == 3 && '0' < code[0] <= '5' && (forall i | 0 <= i < 3 :: IsDigit(code[i]))
    ensures 100 <= Decimal(code) <= 599
  {
    ThreeDigits(code);
  }

  lemma ThreeDigits(code: string)
    requires |code| == 3
    ensures Decimal(code) == Digit(code[0]) * 100 + Digit(code[1]) * 10 + Digit(code[2])
  {
    assert code[..2][..1] == code[..1] && code[..1][..0] == "";
    assert Decimal(code[..1]) == Digit(code[0]);
    assert Decimal(code[..2]) == Digit(code[0]) * 10 + Digit(code[1]);
  }

  /** Everything the response parser accepts is a well-formed response. */
  lemma ParsedResponseWf(s: string)
    ensures ParseResponse(s).Some? ==> WfResponse(ParseResponse(s).value)
  {
    if ParseResponse(s).Some? {
      ParsedFieldsWf(ParseStatusLine(s).rest);
      ParsedStatusWf(ParseVersion(s).value, Expect(ParseVersion(s).rest, ' ').rest);
    }
  }

  lemma ParsedStatusWf(v: Version, s: string)
    ensures ParseStatus(v, s).Parsed? ==>
              var (_, code, msg) := ParseStatus(v, s).value; 100 <= code <= 599 && LineEnd(msg).None?
  {
    if ParseStatus(v, s).Parsed? {
      var (code, r0) := Leading(s, IsDigit);
      StatusCodeRange(code);
      NoLineEndBefore(Expect(r0, ' ').rest);
    }
  }

  // ---- Requests

  lemma AfterURL(m: Method, s: string, url: string, r1: string)
    requires ParseURL(s) == Parsed(url, " " + r1)
    ensures ParseTarget(m, s) ==
            match ParseVersion(r1)
            case Fail => Fail
            case Parsed(v, r2) => if IsLineEnd(r2, 0) then Parsed((m, url, v), r2[2..]) else Fail
  {
    hide ParseURL;
    hide ParseVersion;
    assert (" " + r1)[1..] == r1;
  }

  lemma TargetParses(m: Method, url: string, v: Version, tail: string)
    requires url != "" && ' ' !in url
    ensures ParseTarget(m, url + (" " + (VersionText(v) + (CRLF + tail)))) == Parsed((m, url, v), tail)
  {
    var r2 := CRLF + tail;
    var r1 := VersionText(v) + r2;
    assert !IsDigit(r2[0]) && IsLineEnd(r2, 0) && r2[2..] == tail;
    URLRoundTrip(url, " " + r1);
    AfterURL(m, url + (" " + r1), url, r1);
    VersionRoundTrip(v, r2);
  }

  lemma RequestLineParses(m: Method, rest: string)
    ensures ParseRequestLine(MethodText(m) + (" " + rest)) == ParseTarget(m, rest)
  {
    MethodRoundTrip(m, " " + rest);
    assert (" " + rest)[1..] == rest;
  }

  lemma RequestTextSplit(r: Request)
    requires r.head.AsStruct?
    ensures var tail := FieldsText(r.head.fields) + CRLF + r.body;
            RequestText(r).value ==
            MethodText(r.meth) + (" " + (r.url + (" " + (VersionText(r.version) + (CRLF + tail)))))
  {
    var h := FieldsText(r.head.fields);
    var l := RequestLineText(r);
    Assoc(l, h, CRLF);
    Assoc(l, h + CRLF, r.body);
    var tail := h + CRLF + r.body;
    Assoc5(MethodText(r.meth), " ", r.url, " ", VersionText(r.version) + CRLF, tail);
    Assoc(MethodText(r.meth) + " " + r.url + " ", VersionText(r.version), CRLF);
    Assoc(VersionText(r.version), CRLF, tail);
  }

  lemma NoSlashFirst(m: Method, rest: string)
    ensures MethodText(m) + rest != "" && (MethodText(m) + rest)[0] != '/'
  {
    MethodWord(m);
    assert (MethodText(m) + rest)[0] == MethodText(m)[0];
  }

  lemma WfRequestParses(r: Request)
    requires WfRequest(r)
    ensures RequestText(r).Some? && ParseRequest(RequestText(r).value) == Some(r)
  {
    var tail := FieldsText(r.head.fields) + CRLF + r.body;
    var target := r.url + (" " + (VersionText(r.version) + (CRLF + tail)));
    RequestTextSplit(r);
    NoSlashFirst(r.meth, " " + target);
    TargetParses(r.meth, r.url, r.version, tail);
    RequestLineParses(r.meth, target);
    TailRoundTrip(r.head.fields, r.body);
  }

  /** Serializing a request and parsing the text gives the request back exactly when it is well formed. */
  lemma RequestRoundTrip(r: Request)
    ensures RequestText(r).Some? && ParseRequest(RequestText(r).value) == Some(r) <==> WfRequest(r)
  {
    if WfRequest(r) {
      WfRequestParses(r);
    } else if RequestText(r).Some? {
      ParsedRequestWf(RequestText(r).value);
    }
  }

  /** Parsing and serializing again is idempotent on every accepted text. */
  lemma RequestCanonical(s: string)
    ensures ParseRequest(s).Some? ==>
              var t := RequestText(ParseRequest(s).value);
              t.Some? && ParseRequest(t.value) == ParseRequest(s)
  {
    ParsedRequestWf(s);
    if ParseRequest(s).Some? {
      WfRequestParses(ParseRequest(s).value);
    }
  }

  /** A header that is given as a string is written like the fields whose text it is; only one that owns
      its string cannot be written. */
  lemma HeaderForms(fs: seq<Field>, h: Header)
    ensures HeaderText(AsString(FieldsText(fs))) == HeaderText(AsStruct(fs)) == Some(FieldsText(fs))
    ensures HeaderText(h).None? <==> h.AsOwnedString?
    ensures h.AsString? ==> HeaderText(h) == Some(h.text)
  {
  }

  // ---- Responses

  /** The three digits written for a status code read back as that code for 0 to 999. */
  lemma StatusDigits(code: int)
    ensures 0 <= code <= 999 <==>
            Decimal(StatusText(code)) == code && forall i | 0 <= i < 3 :: IsDigit(StatusText(code)[i])
  {
    ThreeDigits(StatusText(code));
    if Decimal(StatusText(code)) == code && forall i | 0 <= i < 3 :: IsDigit(StatusText(code)[i]) {
      assert IsDigit(StatusText(code)[0]) && IsDigit(StatusText(code)[1]) && IsDigit(StatusText(code)[2]);
    }
  }

  lemma StatusParts(v: Version, digits: string, msg: string, tail: string)
    requires |digits| == 3 && '0' < digits[0] <= '5' && (forall i | 0 <= i < 3 :: IsDigit(digits[i]))
    requires LineEnd(msg).None?
    ensures ParseStatus(v, digits + (" " + (msg + CRLF + tail))) == Parsed((v, Decimal(digits), msg), tail)
  {
    var r3 := msg + CRLF + tail;
    LeadingOf(digits, " " + r3, IsDigit);
    FindLineEnd(msg, tail);
  }

  lemma StatusLineParts(v: Version, rest: string)
    ensures ParseStatusLine(VersionText(v) + (" " + rest)) == ParseStatus(v, rest)
  {
    VersionRoundTrip(v, " " + rest);
  }

  lemma WfResponseParses(r: Response)
    requires WfResponse(r)
    ensures ResponseText(r).Some? && ParseResponse(ResponseText(r).value) == Some(r)
  {
    var tail := FieldsText(r.head.fields) + CRLF + r.body;
    var digits := StatusText(r.statusCode);
    StatusDigits(r.statusCode);
    StatusParts(r.version, digits, r.statusMsg, tail);
    StatusLineParts(r.version, digits + (" " + (r.statusMsg + CRLF + tail)));
    ResponseTextSplit(r);
    TailRoundTrip(r.head.fields, r.body);
  }

  lemma ResponseTextSplit(r: Response)
    requires r.head.AsStruct?
    ensures var tail := FieldsText(r.head.fields) + CRLF + r.body;
            ResponseText(r).value ==
            VersionText(r.version) + (" " + (StatusText(r.statusCode) + (" " + (r.statusMsg + CRLF + tail))))
  {
    var h, d, m := FieldsText(r.head.fields), StatusText(r.statusCode), r.statusMsg;
    var l := StatusLineText(r);
    Assoc(l, h, CRLF);
    Assoc(l, h + CRLF, r.body);
    var tail := h + CRLF + r.body;
    Assoc5(VersionText(r.version), " ", d, " ", m + CRLF, tail);
    Assoc(VersionText(r.version) + " " + d + " ", m, CRLF);
  }

  /** Serializing a response and parsing the text gives the response back exactly when it is well formed. */
  lemma ResponseRoundTrip(r: Response)
    ensures ResponseText(r).Some? && ParseResponse(ResponseText(r).value) == Some(r) <==> WfResponse(r)
  {
    if WfResponse(r) {
      WfResponseParses(r);
    } else if ResponseText(r).Some? {
      ParsedResponseWf(ResponseText(r).value);
    }
  }

  lemma ResponseCanonical(s: string)
    ensures ParseResponse(s).Some? ==>
              var t := ResponseText(ParseResponse(s).value);
              t.Some? && ParseResponse(t.value) == ParseResponse(s)
  {
    ParsedResponseWf(s);
    if ParseResponse(s).Some? {
      WfResponseParses(ParseResponse(s).value);
    }
  }
}
