/** The exact set of messages that the parsers accept. */
module FirstLines {
  import opened Text
  import opened Http
  import opened HttpSyntax
  import opened RoundTrip
  import opened HeaderLanguage

  predicate AllLetters(s: string) {
    forall i | 0 <= i < |s| :: IsLetter(s[i])
  }

  // ---- Versions

  /** A word of letters that begins with "http", in any case. */
  predicate IsHttpWord(w: string) {
    AllLetters(w) && |w| >= 4 && SameButCase(w[..4], "http")
  }

  /** The numbers that are understood: 0.9, 1.0, 1.1, and 2 with any minor number for version 1.1. */
  predicate IsVersionNumber(num: string, v: Version) {
    || (num == "0.9" && v == Http09)
    || (num == "1.0" && v == Http10)
    || (num == "1.1" && v == Http11)
    || (|num| == 3 && num[0] == '2' && num[1] == '.' && IsDigit(num[2]) && v == Http11)
  }

  predicate IsVersionText(s: string, word: string, num: string, v: Version, rest: string) {
    IsHttpWord(word) && IsVersionNumber(num, v) && s == word + ("/" + (num + rest))
  }

  ghost predicate BeginsWithVersion(s: string, v: Version, rest: string) {
    exists word, num :: IsVersionText(s, word, num, v, rest)
  }

  lemma HttpWordMatches(w: string)
    ensures MatchesAt(w, "http", 0) <==> |w| >= 4 && SameButCase(w[..4], "http")
  {
    MatchesMeansSame(w, "http", 0);
    assert w[0..] == w;
  }

  lemma NumberParses(num: string, v: Version, rest: string)
    requires IsVersionNumber(num, v) && rest != "" && !IsDigit(rest[0])
    ensures ParseVersionNumber(num + rest) == Parsed(v, rest)
  {
    hide ParseVersionNumber;
    assert num == [num[0]] + ("." + [num[2]]);
    Assoc([num[0]], "." + [num[2]], rest);
    Assoc(".", [num[2]], rest);
    VersionNumberParts(num[0], num[2], rest);
  }

  /** A run that is followed by a character outside it has not reached the end of the text. */
  lemma LeadingStops(s: string, p: char -> bool, c: char)
    requires !p(c) && Expect(Leading(s, p).1, c).Parsed?
    ensures Span(s, p) < |s| && s[Span(s, p)] == c && s[Span(s, p)..][0] == c
  {
    assert Span(s, p) > 0 ==> p(s[0]);
  }

  lemma NumberParsed(s: string) returns (num: string)
    requires ParseVersionNumber(s).Parsed?
    requires var rest := ParseVersionNumber(s).rest; rest != "" && !IsDigit(rest[0])
    ensures IsVersionNumber(num, ParseVersionNumber(s).value) && s == num + ParseVersionNumber(s).rest
  {
    hide Span;
    var n := Span(s, IsDigit);
    LeadingStops(s, IsDigit, '.');
    var r1 := s[n..][1..];
    assert n == 1 && r1 == s[2..] && s[1] == '.';
    var m := Span(r1, IsDigit);
    assert m > 0 ==> IsDigit(r1[0]);
    assert m == 1 && r1[0] == s[2];
    num := s[..3];
    assert r1[1..] == s[3..];
  }

  /** Where no digit follows, a version is read exactly from such a word, a slash and such a number. */
  lemma VersionLanguage(s: string, v: Version, rest: string)
    requires rest != "" && !IsDigit(rest[0])
    ensures ParseVersion(s) == Parsed(v, rest) <==> BeginsWithVersion(s, v, rest)
  {
    hide ParseVersionNumber;
    hide IsVersionNumber;
    hide MatchesAt;
    hide SameButCase;
    hide Span;
    if ParseVersion(s) == Parsed(v, rest) {
      var n := Span(s, IsLetter);
      LeadingStops(s, IsLetter, '/');
      var r1 := s[n..][1..];
      var num := NumberParsed(r1);
      HttpWordMatches(s[..n]);
      assert s[n..] == "/" + r1 && s == s[..n] + s[n..];
      assert IsVersionText(s, s[..n], num, v, rest);
    }
    if BeginsWithVersion(s, v, rest) {
      var word, num :| IsVersionText(s, word, num, v, rest);
      HttpWordMatches(word);
      AfterHttpWord(word, num + rest);
      NumberParses(num, v, rest);
    }
  }

  // ---- Request lines

  /** A request line as it may be written: the method may be the beginning of a longer word. */
  predicate IsRequestLine(s: string, m: Method, letters: string, url: string, word: string, num: string, v: Version, rest: string) {
    && AllLetters(letters) && url != "" && ' ' !in url && IsHttpWord(word) && IsVersionNumber(num, v)
    && s == MethodText(m) + letters + (" " + (url + (" " + (word + ("/" + (num + (CRLF + rest)))))))
  }

  /** No method name begins another: the first two letters tell them apart. */
  lemma OneMethodOnly(w: string, m: Method, k: Method)
    requires MethodText(m) <= w && MethodText(k) <= w
    ensures m == k
  {
    var t, u := MethodText(m), MethodText(k);
    assert |t| >= 2 && |u| >= 2 && t[0] == w[0] == u[0] && t[1] == w[1] == u[1];
  }

  lemma MethodLanguage(w: string, m: Method)
    ensures MethodOf(w) == Some(m) <==> MethodText(m) <= w
  {
    if MethodOf(w).Some? && MethodText(m) <= w { OneMethodOnly(w, m, MethodOf(w).value); }
  }

  lemma TargetLanguage(m: Method, s: string, url: string, v: Version, rest: string)
    ensures ParseTarget(m, s) == Parsed((m, url, v), rest) <==>
            url != "" && ' ' !in url && exists tail :: BeginsWithVersion(tail, v, CRLF + rest) && s == url + (" " + tail)
  {
    hide ParseVersion;
    hide BeginsWithVersion;
    hide Span;
    if ParseTarget(m, s) == Parsed((m, url, v), rest) {
      var n := Span(s, NotSpace);
      var tail := s[n..][1..];
      var r2 := ParseVersion(tail).rest;
      assert r2 == CRLF + rest by { assert r2[..2] == CRLF && r2 == r2[..2] + r2[2..]; }
      VersionLanguage(tail, v, r2);
      assert s == s[..n] + s[n..] && s[n..] == " " + tail;
      forall i | 0 <= i < |url| ensures url[i] != ' ' { assert url[i] == s[i]; }
    }
    if url != "" && ' ' !in url {
      forall tail | BeginsWithVersion(tail, v, CRLF + rest) && s == url + (" " + tail)
        ensures ParseTarget(m, s) == Parsed((m, url, v), rest)
      {
        VersionLanguage(tail, v, CRLF + rest);
        URLRoundTrip(url, " " + tail);
        AfterURL(m, s, url, tail);
        assert (CRLF + rest)[2..] == rest;
      }
    }
  }

  lemma RequestLineSplit(s: string)
    requires ParseRequestLine(s).Parsed?
    ensures var n := Span(s, IsLetter);
            && n < |s| && s[n] == ' ' && MethodOf(s[..n]).Some?
            && ParseRequestLine(s) == ParseTarget(MethodOf(s[..n]).value, s[n + 1..])
  {
    hide ParseTarget;
    hide MethodOf;
    hide Span;
    LeadingStops(s, IsLetter, ' ');
    var n := Span(s, IsLetter);
    assert s[n..][1..] == s[n + 1..];
  }

  lemma ParsedRequestLine(s: string, m: Method, url: string, v: Version, rest: string)
    returns (letters: string, word: string, num: string)
    requires ParseRequestLine(s) == Parsed((m, url, v), rest)
    ensures IsRequestLine(s, m, letters, url, word, num, v, rest)
  {
    hide ParseRequestLine;
    hide ParseTarget;
    hide MethodOf;
    hide MethodText;
    hide Span;
    hide IsVersionNumber;
    hide IsHttpWord;
    var n := Span(s, IsLetter);
    RequestLineSplit(s);
    var r1 := s[n + 1..];
    TargetMethod(MethodOf(s[..n]).value, r1);
    MethodLanguage(s[..n], m);
    TargetLanguage(m, r1, url, v, rest);
    var tail :| BeginsWithVersion(tail, v, CRLF + rest) && r1 == url + (" " + tail);
    word, num :| IsVersionText(tail, word, num, v, CRLF + rest);
    var t := MethodText(m);
    letters := s[|t|..n];
    assert s[..n] == t + letters && s[n..] == " " + r1 && s == s[..n] + s[n..];
  }

  lemma RequestLineParsed(s: string, m: Method, letters: string, url: string, word: string, num: string, v: Version, rest: string)
    requires IsRequestLine(s, m, letters, url, word, num, v, rest)
    ensures ParseRequestLine(s) == Parsed((m, url, v), rest)
  {
    hide ParseTarget;
    hide MethodOf;
    hide MethodText;
    hide Span;
    hide IsVersionNumber;
    hide IsHttpWord;
    var tail := word + ("/" + (num + (CRLF + rest)));
    assert IsVersionText(tail, word, num, v, CRLF + rest);
    var w, target := MethodText(m) + letters, url + (" " + tail);
    MethodLanguage(w, m);
    MethodIsLetters(m);
    LeadingOf(w, " " + target, IsLetter);
    TargetLanguage(m, target, url, v, rest);
    assert (" " + target)[1..] == target;
  }

  /** A request line is accepted, with given parts, exactly when it is one of those. */
  lemma AcceptedRequestLines(s: string, m: Method, url: string, v: Version, rest: string)
    ensures ParseRequestLine(s) == Parsed((m, url, v), rest) <==>
            exists letters, word, num :: IsRequestLine(s, m, letters, url, word, num, v, rest)
  {
    hide ParseRequestLine;
    hide IsRequestLine;
    if ParseRequestLine(s) == Parsed((m, url, v), rest) {
      var letters, word, num := ParsedRequestLine(s, m, url, v, rest);
    }
    forall letters, word, num | IsRequestLine(s, m, letters, url, word, num, v, rest)
      ensures ParseRequestLine(s) == Parsed((m, url, v), rest)
    {
      RequestLineParsed(s, m, letters, url, word, num, v, rest);
    }
  }

  lemma MethodIsLetters(m: Method)
    ensures AllLetters(MethodText(m))
  {
    MethodWord(m);
  }

  lemma TargetMethod(m: Method, s: string)
    ensures ParseTarget(m, s).Parsed? ==> ParseTarget(m, s).value.0 == m
  {
  }

  // ---- Status lines

  /** A status line as it may be written. */
  predicate IsStatusLine(s: string, word: string, num: string, v: Version, digits: string, msg: string, rest: string) {
    && IsHttpWord(word) && IsVersionNumber(num, v)
    && |digits| == 3 && '1' <= digits[0] <= '5' && IsDigit(digits[1]) && IsDigit(digits[2]) && LineEnd(msg).None?
    && s == word + ("/" + (num + (" " + (digits + (" " + (msg + CRLF + rest))))))
  }

  /** The code that three digits stand for. */
  function CodeOf(digits: string): int
    requires |digits| == 3
  {
    100 * Digit(digits[0]) + 10 * Digit(digits[1]) + Digit(digits[2])
  }

  lemma StatusParsed(v: Version, s: string) returns (digits: string, msg: string)
    requires ParseStatus(v, s).Parsed?
    ensures |digits| == 3 && '1' <= digits[0] <= '5' && IsDigit(digits[1]) && IsDigit(digits[2]) && LineEnd(msg).None?
    ensures ParseStatus(v, s).value == (v, CodeOf(digits), msg)
    ensures s == digits + (" " + (msg + CRLF + ParseStatus(v, s).rest))
  {
    hide Span;
    var n := Span(s, IsDigit);
    LeadingStops(s, IsDigit, ' ');
    digits := s[..n];
    ThreeDigits(digits);
    var r1 := s[n..][1..];
    var e := LineEnd(r1).value;
    msg := r1[..e];
    NoLineEndBefore(r1);
    assert r1[e..e + 2] == CRLF && r1 == r1[..e] + r1[e..e + 2] + r1[e + 2..];
    assert s[n..] == " " + r1 && s == s[..n] + s[n..];
  }

  lemma ParsedStatusLine(s: string, v: Version, code: int, msg: string, rest: string)
    returns (word: string, num: string, digits: string)
    requires ParseStatusLine(s) == Parsed((v, code, msg), rest)
    ensures IsStatusLine(s, word, num, v, digits, msg, rest) && code == CodeOf(digits)
  {
    hide ParseVersion;
    hide ParseStatus;
    hide IsHttpWord;
    hide IsVersionNumber;
    var r0 := ParseVersion(s).rest;
    var msg';
    StatusVersion(ParseVersion(s).value, r0[1..]);
    digits, msg' := StatusParsed(v, r0[1..]);
    assert r0 == " " + r0[1..];
    VersionLanguage(s, v, r0);
    word, num :| IsVersionText(s, word, num, v, r0);
  }

  lemma StatusVersion(v: Version, s: string)
    ensures ParseStatus(v, s).Parsed? ==> ParseStatus(v, s).value.0 == v
  {
  }

  lemma StatusLineParsed(s: string, word: string, num: string, v: Version, digits: string, msg: string, rest: string)
    requires IsStatusLine(s, word, num, v, digits, msg, rest)
    ensures ParseStatusLine(s) == Parsed((v, CodeOf(digits), msg), rest)
  {
    hide ParseVersion;
    hide ParseStatus;
    hide IsHttpWord;
    hide IsVersionNumber;
    var status := digits + (" " + (msg + CRLF + rest));
    ThreeDigits(digits);
    StatusParts(v, digits, msg, rest);
    assert IsVersionText(s, word, num, v, " " + status);
    VersionLanguage(s, v, " " + status);
    assert (" " + status)[1..] == status;
  }

  /** A status line is accepted, with given parts, exactly when it is one of those. */
  lemma AcceptedStatusLines(s: string, v: Version, code: int, msg: string, rest: string)
    ensures ParseStatusLine(s) == Parsed((v, code, msg), rest) <==>
            exists word, num, digits :: IsStatusLine(s, word, num, v, digits, msg, rest) && code == CodeOf(digits)
  {
    hide ParseStatusLine;
    hide IsHttpWord;
    hide IsVersionNumber;
    if ParseStatusLine(s) == Parsed((v, code, msg), rest) {
      var word, num, digits := ParsedStatusLine(s, v, code, msg, rest);
    }
    forall word, num, digits | IsStatusLine(s, word, num, v, digits, msg, rest) && code == CodeOf(digits)
      ensures ParseStatusLine(s) == Parsed((v, code, msg), rest)
    {
      StatusLineParsed(s, word, num, v, digits, msg, rest);
    }
  }

  // ---- Messages

  /** What follows a first line: header fields, each with any number of spaces after its colon, a blank
      line, and the body. */
  predicate IsTail(s: string, fs: seq<Field>, pads: seq<nat>, body: string) {
    |pads| == |fs| && WfFields(fs) && s == BlockText(fs, pads) + (CRLF + body)
  }

  lemma TailLanguage(s: string, fs: seq<Field>, body: string)
    ensures ParseTail(s) == Parsed(fs, body) <==> exists pads :: IsTail(s, fs, pads, body)
  {
    hide ParseFields;
    hide BlockText;
    hide WfFields;
    if ParseTail(s) == Parsed(fs, body) {
      var r := ParseFields(s).rest;
      assert r == CRLF + body by { assert r[..2] == CRLF && r == r[..2] + r[2..]; }
      AcceptedHeaders(s, fs, r);
      var pads: seq<nat> :| |pads| == |fs| && s == BlockText(fs, pads) + r;
      assert IsTail(s, fs, pads, body);
    }
    forall pads | IsTail(s, fs, pads, body) ensures ParseTail(s) == Parsed(fs, body) {
      AcceptedHeaders(s, fs, CRLF + body);
      assert (CRLF + body)[2..] == body;
    }
  }

  /** The language of requests. */
  lemma AcceptedRequests(s: string, r: Request)
    ensures ParseRequest(s) == Some(r) <==>
            && r.head.AsStruct?
            && exists letters, word, num, tail, pads ::
                 && IsRequestLine(s, r.meth, letters, r.url, word, num, r.version, tail)
                 && IsTail(tail, r.head.fields, pads, r.body)
  {
    hide ParseRequestLine;
    hide ParseTail;
    hide IsRequestLine;
    hide IsTail;
    if ParseRequest(s) == Some(r) {
      var tail := ParseRequestLine(s).rest;
      AcceptedRequestLines(s, r.meth, r.url, r.version, tail);
      TailLanguage(tail, r.head.fields, r.body);
    }
    if r.head.AsStruct? {
      forall letters, word, num, tail, pads |
          && IsRequestLine(s, r.meth, letters, r.url, word, num, r.version, tail)
          && IsTail(tail, r.head.fields, pads, r.body)
        ensures ParseRequest(s) == Some(r)
      {
        AcceptedRequestLines(s, r.meth, r.url, r.version, tail);
        TailLanguage(tail, r.head.fields, r.body);
        BeginsWithMethod(s, r.meth, letters, r.url, word, num, r.version, tail);
      }
    }
  }

  lemma BeginsWithMethod(s: string, m: Method, letters: string, url: string, word: string, num: string, v: Version, rest: string)
    requires IsRequestLine(s, m, letters, url, word, num, v, rest)
    ensures s != "" && s[0] != '/'
  {
    MethodIsLetters(m);
    assert s[0] == MethodText(m)[0] && IsLetter(MethodText(m)[0]);
  }

  /** The language of responses. */
  lemma AcceptedResponseTexts(s: string, r: Response)
    ensures ParseResponse(s) == Some(r) <==>
            && r.head.AsStruct?
            && exists word, num, digits, tail, pads ::
                 && IsStatusLine(s, word, num, r.version, digits, r.statusMsg, tail) && r.statusCode == CodeOf(digits)
                 && IsTail(tail, r.head.fields, pads, r.body)
  {
    hide ParseStatusLine;
    hide ParseTail;
    hide IsTail;
    hide IsHttpWord;
    hide IsVersionNumber;
    if ParseResponse(s) == Some(r) {
      var tail := ParseStatusLine(s).rest;
      AcceptedStatusLines(s, r.version, r.statusCode, r.statusMsg, tail);
      TailLanguage(tail, r.head.fields, r.body);
    }
    if r.head.AsStruct? {
      forall word, num, digits, tail, pads |
          && IsStatusLine(s, word, num, r.version, digits, r.statusMsg, tail) && r.statusCode == CodeOf(digits)
          && IsTail(tail, r.head.fields, pads, r.body)
        ensures ParseResponse(s) == Some(r)
      {
        AcceptedStatusLines(s, r.version, r.statusCode, r.statusMsg, tail);
        TailLanguage(tail, r.head.fields, r.body);
      }
    }
  }
}
