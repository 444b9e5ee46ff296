/** What the parser of messages makes of those that the receive controller frames. */
module Acceptance {
  import opened Text
  import opened Http
  import opened HttpSyntax
  import opened RecvController
  import opened Framing
  import opened ContentLength
  import opened RoundTrip
  import Parsing

  // ---- Lines of a header

  /** A line of letters, which may be none, and a colon begins at `k`. */
  predicate IsFieldLine(s: string, k: nat)
    requires k <= |s|
  {
    k + Span(s[k..], IsLetter) < |s| && s[k + Span(s[k..], IsLetter)] == ':'
  }

  /** No line before `e` is a blank one. */
  ghost predicate NoBlankLineBefore(s: string, e: nat) {
    forall k: nat | k < e && IsLineStart(s, k) :: !IsLineEnd(s, k)
  }

  ghost predicate AllFieldLines(s: string, from: nat, e: nat)
    requires e <= |s|
  {
    forall k: nat | from <= k < e && IsLineStart(s, k) :: IsFieldLine(s, k)
  }

  lemma LengthFieldFails(t: string)
    requires MatchesAt(t, CONTENT_LENGTH, 0)
    ensures ParseField(t).Fail? && !IsLineEnd(t, 0)
  {
    forall i | 0 <= i < |CONTENT_LENGTH| ensures ToLower(t[i]) == ToLower(CONTENT_LENGTH[i]) {
      assert ToLower(t[0 + i]) == ToLower(CONTENT_LENGTH[i]);
    }
    assert ToLower(t[7]) == '-' && t[7] == '-' && ToLower(t[0]) == 'c';
    assert forall i | 0 <= i < 7 :: IsLetter(CONTENT_LENGTH[i]);
    forall i | 0 <= i < 7 ensures IsLetter(t[i]) {
      assert ToLower(t[i]) == ToLower(CONTENT_LENGTH[i]);
    }
    SpanIs(t, IsLetter, 7);
    assert t[7..][0] == '-';
  }

  /** The line starts of a text behind its first line are those of the text without that line. */
  lemma LineStartInRest(s: string, k: nat)
    requires LineEnd(s).Some?
    ensures var n := LineEnd(s).value + 2;
            if k < n then IsLineStart(s, k) <==> k == 0 else IsLineStart(s, k) <==> IsLineStart(s[n..], k - n)
  {
    var n := LineEnd(s).value + 2;
    if k >= n + 2 {
      assert IsLineEnd(s, k - 2) <==> IsLineEnd(s[n..], k - 2 - n);
    }
  }

  lemma MatchesInSuffix(s: string, n: nat, needle: string, k: nat)
    requires n <= k && n <= |s| && MatchesAt(s, needle, k)
    ensures MatchesAt(s[n..], needle, k - n)
  {
    forall j | 0 <= j < |needle| ensures ToLower(s[n..][k - n + j]) == ToLower(needle[j]) {
      assert ToLower(s[k + j]) == ToLower(needle[j]);
    }
  }

  /** Field names are letters only: no line of an accepted header begins with `Content-Length:`, in any
      case, whatever the lines before it look like. */
  lemma {:induction false} LengthFieldsAreRefused(s: string, k: nat)
    requires ParseFields(s).Parsed? && k < |s| - |ParseFields(s).rest| && IsLineStart(s, k)
    ensures !MatchesAt(s, CONTENT_LENGTH, k)
    decreases |s|
  {
    hide ParseField;
    hide MatchesAt;
    hide IsLineStart;
    if MatchesAt(s, CONTENT_LENGTH, k) {
      if k == 0 {
        LengthFieldFails(s);
      } else {
        var r := ParseField(s).rest;
        Parsing.FieldConsumesOneLine(s);
        LineStartInRest(s, k);
        var n := LineEnd(s).value + 2;
        MatchesInSuffix(s, n, CONTENT_LENGTH, k);
        LengthFieldsAreRefused(r, k - n);
      }
    }
  }

  /** A field is parsed exactly from a line that begins with letters and a colon, if more text follows it. */
  lemma FieldIffLine(s: string)
    requires LineEnd(s).Some? && LineEnd(s).value + 2 < |s|
    ensures ParseField(s).Parsed? <==> IsFieldLine(s, 0)
  {
    hide IsSpace;
    assert s[0..] == s;
    Parsing.NoLineEndBeforeValue(s);
    var n := Span(s, IsLetter);
    if n < |s| { assert s[n..][0] == s[n]; }
    if ParseName(s).Parsed? {
      LineEndInSuffix(s, |s| - |ParseName(s).rest|);
    }
  }

  lemma FieldLineInRest(s: string, n: nat, k: nat)
    requires n <= k <= |s|
    ensures IsFieldLine(s, k) <==> IsFieldLine(s[n..], k - n)
  {
    assert s[n..][k - n..] == s[k..];
  }

  lemma LinesInRest(s: string, e: nat)
    requires LineEnd(s).Some? && LineEnd(s).value + 2 <= e <= |s|
    ensures var n := LineEnd(s).value + 2;
            && (NoBlankLineBefore(s, e) ==> NoBlankLineBefore(s[n..], e - n))
            && (AllFieldLines(s, 0, e) <==> IsFieldLine(s, 0) && AllFieldLines(s[n..], 0, e - n))
            && (IsLineStart(s, e) ==> IsLineStart(s[n..], e - n))
            && (AllFieldLines(s, n, e) <==> AllFieldLines(s[n..], 0, e - n))
  {
    hide IsFieldLine;
    hide IsLineStart;
    var n := LineEnd(s).value + 2;
    forall k: nat ensures if k < n then IsLineStart(s, k) <==> k == 0
                          else IsLineStart(s, k) <==> IsLineStart(s[n..], k - n) {
      LineStartInRest(s, k);
    }
    forall k: nat | n <= k <= |s| ensures IsFieldLine(s, k) <==> IsFieldLine(s[n..], k - n) {
      FieldLineInRest(s, n, k);
    }
    if NoBlankLineBefore(s, e) {
      forall k: nat | k < e - n && IsLineStart(s[n..], k) ensures !IsLineEnd(s[n..], k) {
        assert IsLineStart(s, n + k) && !IsLineEnd(s, n + k);
      }
    }
    forall k: nat | k < e - n && IsLineStart(s[n..], k)
      ensures IsLineStart(s, n + k) && (IsFieldLine(s, n + k) <==> IsFieldLine(s[n..], k))
    {
    }
  }

  /** Up to its first blank line, at `e`, a header is accepted exactly when each of its lines begins with
      letters and a colon. */
  lemma {:induction false} FieldsIffLines(s: string, e: nat)
    requires IsLineStart(s, e) && IsLineEnd(s, e) && NoBlankLineBefore(s, e)
    ensures ParseFields(s).Parsed? <==> AllFieldLines(s, 0, e)
    ensures ParseFields(s).Parsed? ==> ParseFields(s).rest == s[e..]
    decreases |s|
  {
    hide ParseField;
    hide IsFieldLine;
    if e > 0 {
      assert IsLineStart(s, 0) && IsLineEnd(s, e - 2);
      assert LineEnd(s).Some? && LineEnd(s).value <= e - 2;
      var n := LineEnd(s).value + 2;
      FieldIffLine(s);
      LinesInRest(s, e);
      FieldsIffLines(s[n..], e - n);
      assert s[n..][e - n..] == s[e..];
      if ParseField(s).Parsed? { Parsing.FieldConsumesOneLine(s); }
    }
  }

  // ---- The first line

  /** `r` is what is left of `s` behind characters of one line. */
  predicate Skips(s: string, r: string) {
    |r| <= |s| && r == s[|s| - |r|..] && forall i | 0 <= i < |s| - |r| :: s[i] != '\r'
  }

  lemma SkipsOn(s: string, r: string, q: string)
    requires Skips(s, r) && Skips(r, q)
    ensures Skips(s, q)
  {
    assert s[|s| - |r|..][|r| - |q|..] == s[|s| - |q|..];
    forall i | 0 <= i < |s| - |q| ensures s[i] != '\r' {
      if i >= |s| - |r| { assert s[i] == r[i - (|s| - |r|)]; }
    }
  }

  lemma LeadingSkips(s: string, p: char -> bool)
    requires !p('\r')
    ensures Skips(s, Leading(s, p).1)
  {
  }

  lemma ExpectSkips(s: string, c: char)
    requires c != '\r' && Expect(s, c).Parsed?
    ensures Skips(s, Expect(s, c).rest)
  {
  }

  lemma VersionNumberSkips(s: string)
    requires ParseVersionNumber(s).Parsed?
    ensures Skips(s, ParseVersionNumber(s).rest)
  {
    hide Leading;
    hide Skips;
    var r0 := Leading(s, IsDigit).1;
    var r1 := Expect(r0, '.').rest;
    LeadingSkips(s, IsDigit);
    ExpectSkips(r0, '.');
    LeadingSkips(r1, IsDigit);
    SkipsOn(s, r0, r1);
    SkipsOn(s, r1, Leading(r1, IsDigit).1);
  }

  lemma VersionSkips(s: string)
    requires ParseVersion(s).Parsed?
    ensures Skips(s, ParseVersion(s).rest)
  {
    hide Leading;
    hide Skips;
    hide ParseVersionNumber;
    var r0 := Leading(s, IsLetter).1;
    var r1 := Expect(r0, '/').rest;
    LeadingSkips(s, IsLetter);
    ExpectSkips(r0, '/');
    VersionNumberSkips(r1);
    SkipsOn(s, r0, r1);
    SkipsOn(s, r1, ParseVersion(s).rest);
  }

  lemma StatusSkips(v: Version, s: string)
    requires ParseStatus(v, s).Parsed?
    ensures LineEnd(s).Some? && ParseStatus(v, s).rest == s[LineEnd(s).value + 2..]
  {
    hide Leading;
    var r0 := Leading(s, IsDigit).1;
    var r1 := Expect(r0, ' ').rest;
    LeadingSkips(s, IsDigit);
    ExpectSkips(r0, ' ');
    SkipsOn(s, r0, r1);
    LineBehind(s, r1);
  }

  lemma LineBehind(s: string, r: string)
    requires Skips(s, r) && LineEnd(r).Some?
    ensures LineEnd(s) == Some(|s| - |r| + LineEnd(r).value)
    ensures r[LineEnd(r).value + 2..] == s[LineEnd(s).value + 2..]
  {
    LineEndInSuffix(s, |s| - |r|);
  }

  /** An accepted status line is the first line of the text. */
  lemma StatusLineIsALine(s: string)
    requires ParseStatusLine(s).Parsed?
    ensures LineEnd(s).Some? && ParseStatusLine(s).rest == s[LineEnd(s).value + 2..]
  {
    hide ParseVersion;
    hide ParseStatus;
    var v, r0 := ParseVersion(s).value, ParseVersion(s).rest;
    var r1 := Expect(r0, ' ').rest;
    VersionSkips(s);
    ExpectSkips(r0, ' ');
    SkipsOn(s, r0, r1);
    StatusSkips(v, r1);
    LineBehind(s, r1);
  }

  // ---- Responses

  /** The end of the header, as the receive controller finds it, is the first blank line. */
  lemma HeaderEndIsBlankLine(s: string)
    requires Find(s, END_OF_HEADER).Some?
    ensures var e := Find(s, END_OF_HEADER).value;
            && IsLineEnd(s, e) && IsLineEnd(s, e + 2) && LineEnd(s).Some? && LineEnd(s).value <= e
            && forall k: nat | k < e :: !(IsLineEnd(s, k) && IsLineEnd(s, k + 2))
  {
    hide Find;
    hide MatchesAt;
    FindIsLeftmost(s, END_OF_HEADER);
    var e := Find(s, END_OF_HEADER).value;
    MatchesTwoLineEnds(s, e);
    forall k: nat | k < e ensures !(IsLineEnd(s, k) && IsLineEnd(s, k + 2)) { MatchesTwoLineEnds(s, k); }
  }

  /** A response is accepted exactly when its first line is a status line and every line from there to
      the end of the header begins with letters and a colon. Parser and receive controller then agree
      where the body begins. */
  lemma AcceptedResponses(s: string)
    requires Find(s, END_OF_HEADER).Some?
    ensures var h := Find(s, END_OF_HEADER).value + 4;
            && h <= |s|
            && (ParseResponse(s).Some? <==>
                  ParseStatusLine(s).Parsed? && LineEnd(s).Some? && AllFieldLines(s, LineEnd(s).value + 2, h - 2))
            && (ParseResponse(s).Some? ==> ParseResponse(s).value.body == s[h..])
  {
    hide Find;
    hide ParseStatusLine;
    hide ParseFields;
    hide IsFieldLine;
    hide IsLineStart;
    HeaderEndIsBlankLine(s);
    if ParseStatusLine(s).Parsed? {
      StatusLineIsALine(s);
      var n, h := LineEnd(s).value + 2, Find(s, END_OF_HEADER).value + 4;
      BlankLineOfRest(s, h);
      LinesInRest(s, h - 2);
      FieldsIffLines(s[n..], h - 2 - n);
      assert s[n..][h - 2 - n..][2..] == s[h..];
    }
  }

  lemma BlankLineOfRest(s: string, h: nat)
    requires LineEnd(s).Some? && LineEnd(s).value + 4 <= h <= |s| && IsLineEnd(s, h - 4) && IsLineEnd(s, h - 2)
    requires forall k: nat | k < h - 4 :: !(IsLineEnd(s, k) && IsLineEnd(s, k + 2))
    ensures var n := LineEnd(s).value + 2;
            && IsLineEnd(s[n..], h - 2 - n) && IsLineStart(s[n..], h - 2 - n) && NoBlankLineBefore(s[n..], h - 2 - n)
  {
    var n := LineEnd(s).value + 2;
    LineStartInRest(s, h - 2);
    forall k: nat | k < h - 2 - n && IsLineStart(s[n..], k) ensures !IsLineEnd(s[n..], k) {
      LineStartInRest(s, n + k);
      var j := n + k - 2;
      assert IsLineEnd(s, j) && !IsLineEnd(s, j + 2);
    }
  }

  lemma VersionFirst(s: string)
    requires ParseVersion(s).Parsed?
    ensures !MatchesAt(s, CONTENT_LENGTH, 0)
  {
    hide ParseVersionNumber;
    var w := Leading(s, IsLetter).0;
    CharMatches(w, "http", 0, 0);
    CharMatches(s, CONTENT_LENGTH, 0, 0);
    assert w[0] == s[0] && ToLower(s[0]) == 'h';
  }

  /** No line of an accepted response, up to its body, begins with `Content-Length:`. */
  lemma NoLengthFieldAccepted(s: string, k: nat)
    requires ParseResponse(s).Some? && IsLineStart(s, k) && k + |ParseResponse(s).value.body| + 2 < |s|
    ensures !MatchesAt(s, CONTENT_LENGTH, k)
  {
    hide ParseStatusLine;
    hide ParseFields;
    hide MatchesAt;
    hide IsLineStart;
    var r := ParseStatusLine(s).rest;
    StatusLineIsALine(s);
    var n := LineEnd(s).value + 2;
    LineStartInRest(s, k);
    if k < n {
      FirstIsVersion(s);
      VersionFirst(s);
    } else if MatchesAt(s, CONTENT_LENGTH, k) {
      MatchesInSuffix(s, n, CONTENT_LENGTH, k);
      LengthFieldsAreRefused(r, k - n);
    }
  }

  lemma FirstIsVersion(s: string)
    requires ParseStatusLine(s).Parsed?
    ensures ParseVersion(s).Parsed?
  {
    hide ParseVersion;
  }

  /** What a sized message says about its text. */
  lemma SizedOpens(s: string)
    requires Classify(s).Sized?
    ensures var h := Classify(s).header; Opens(s, h) && Find(s[..h], CONTENT_LENGTH).Some?
  {
    hide Find;
    hide ParseVersion;
    hide Classify;
    hide ClassifyHeader;
    hide Uint;
    ClassifyUnfolds(s);
    ClassifyHeaderUnfolds(s);
  }

  /** When the parser accepts a message whose length the receive controller has understood, that length
      does not come from a Content-Length field, of which there is none: it was read in the middle of
      the status line or of another field. Received to its end, the message has a body of that length. */
  lemma AcceptedLengthIsNoField(s: string)
    requires ParseResponse(s).Some? && Classify(s).Sized?
    ensures var Sized(h, n) := Classify(s);
            && h <= |s| && ParseResponse(s).value.body == s[h..]
            && (|s| == h + n ==> |ParseResponse(s).value.body| == n)
            && Find(s[..h], CONTENT_LENGTH).Some? && !IsLineStart(s, Find(s[..h], CONTENT_LENGTH).value)
            && forall k: nat :: !IsLengthField(s, h, k)
  {
    hide Find;
    hide Classify;
    hide MatchesAt;
    hide ParseVersion;
    hide ParseResponse;
    hide IsLineStart;
    SizedOpens(s);
    AcceptedResponses(s);
    var h := Classify(s).header;
    FindIsLeftmost(s[..h], CONTENT_LENGTH);
    FindIsLeftmost(s, END_OF_HEADER);
    forall k: nat ensures !IsLengthField(s, h, k) {
      if IsLengthField(s, h, k) {
        BeforeHeaderEnd(s, h, k);
        MatchesInPrefix(s, h, CONTENT_LENGTH, k);
        NoLengthFieldAccepted(s, k);
      }
    }
    assert !IsLengthField(s, h, Find(s[..h], CONTENT_LENGTH).value);
  }

  lemma MatchesInPrefix(s: string, h: nat, needle: string, k: nat)
    requires h <= |s| && MatchesAt(s[..h], needle, k)
    ensures MatchesAt(s, needle, k)
  {
    forall j | 0 <= j < |needle| ensures ToLower(s[k + j]) == ToLower(needle[j]) {
      assert ToLower(s[..h][k + j]) == ToLower(needle[j]);
    }
  }

  /** There are such messages. In this one the header line is `A:Content-Length: 5`, and the length is
      read from the value of the field `A`. */
  lemma LengthInsideValue()
    ensures var s := MessageWith("A:", " 5", CRLF + "hello");
            && Classify(s) == Sized(40, 5)
            && ParseResponse(s) ==
               Some(Response(Http11, 200, "OK", AsStruct([Field("A", CONTENT_LENGTH + " 5")]), "hello"))
  {
    hide Classify;
    hide ParseResponse;
    hide ResponseText;
    hide MessageWith;
    hide Squeeze;
    hide Decimal;
    OneDigit();
    EmptyLineFirst("hello");
    SizedMessage("A:", " 5", "5", CRLF + "hello", 0);
    var r := Response(Http11, 200, "OK", AsStruct([Field("A", CONTENT_LENGTH + " 5")]), "hello");
    WfResponseParses(r);
    TextOfMessage(" 5", "hello");
  }

  lemma TextOfMessage(value: string, body: string)
    ensures ResponseText(Response(Http11, 200, "OK", AsStruct([Field("A", CONTENT_LENGTH + value)]), body)) ==
            Some(MessageWith("A:", value, CRLF + body))
  {
    var f := Field("A", CONTENT_LENGTH + value);
    var r := Response(Http11, 200, "OK", AsStruct([f]), body);
    assert [f][1..] == [];
    assert FieldsText([f]) == FieldText(f);
    assert StatusText(200) == "200";
    assert StatusLineText(r) == OK_LINE + CRLF;
    assert FieldText(f) == "A:" + CONTENT_LENGTH + value + CRLF;
    var line := "A:" + CONTENT_LENGTH + value + CRLF;
    assert ResponseText(r).value == OK_LINE + CRLF + line + CRLF + body;
    Assoc(OK_LINE + CRLF, line, CRLF);
    Assoc(OK_LINE + CRLF, line + CRLF, body);
    Assoc(OK_LINE, CRLF, line + CRLF + body);
    Assoc5("A:", CONTENT_LENGTH, value, CRLF, CRLF, body);
  }

  // ---- Requests

  predicate IsTail(s: string, r: string) {
    |r| <= |s| && r == s[|s| - |r|..]
  }

  lemma TailOfTail(s: string, r: string, q: string)
    requires IsTail(s, r) && IsTail(r, q)
    ensures IsTail(s, q)
  {
  }

  lemma TargetTail(m: Method, s: string)
    requires ParseTarget(m, s).Parsed?
    ensures LineEnd(s).Some?
  {
    hide ParseVersion;
    var r0 := ParseURL(s).rest;
    var r1 := Expect(r0, ' ').rest;
    var r2 := ParseVersion(r1).rest;
    assert IsTail(s, r0) && IsTail(r0, r1);
    VersionSkips(r1);
    TailOfTail(s, r0, r1);
    TailOfTail(s, r1, r2);
    assert IsLineEnd(s, |s| - |r2|);
  }

  /** A request line begins with a word that is not `http`, and a space. */
  lemma RequestBegins(s: string)
    requires ParseRequestLine(s).Parsed?
    ensures var n := Span(s, IsLetter);
            n < |s| && s[n] == ' ' && !MatchesAt(s[..n], "http", 0) && LineEnd(s).Some? && LineEnd(s).value > n
  {
    hide ParseTarget;
    hide Span;
    hide MethodOf;
    hide MatchesAt;
    hide LineEnd;
    var n := Span(s, IsLetter);
    assert n < |s| && s[n..][0] == ' ';
    assert s[n..][1..] == s[n + 1..];
    TargetTail(ParseMethod(s).value, s[n + 1..]);
    LineEndInSuffix(s, n + 1);
    NoMethodIsHttp(s[..n]);
  }

  lemma RequestHasLine(s: string)
    requires ParseRequest(s).Some?
    ensures ParseRequestLine(s).Parsed?
  {
    hide ParseRequestLine;
    hide ParseTail;
  }

  lemma NoMethodIsHttp(w: string)
    requires MethodOf(w).Some?
    ensures !MatchesAt(w, "http", 0)
  {
    var t := MethodText(MethodOf(w).value);
    assert t <= w && |t| >= 3;
    assert w[0] == t[0] && w[1] == t[1];
    assert ToLower(t[0]) != 'h' || ToLower(t[1]) != 't';
    CharMatches(w, "http", 0, 0);
    CharMatches(w, "http", 0, 1);
  }

  /** The receive controller understands responses only: every request that the parser accepts is refused
      at the end of its first line. */
  lemma RequestsAreRefused(s: string)
    requires ParseRequest(s).Some?
    ensures LineEnd(s).Some? && Classify(s) == BadVersion(LineEnd(s).value + 2)
  {
    hide ParseRequest;
    hide ParseRequestLine;
    hide Find;
    hide MatchesAt;
    hide ParseVersionNumber;
    hide Classify;
    RequestHasLine(s);
    RequestBegins(s);
    FindIsLineEnd(s);
    ClassifyUnfolds(s);
    var n, e := Span(s, IsLetter), LineEnd(s).value;
    SpanIs(s[..e + 2], IsLetter, n);
    assert s[..e + 2][..n] == s[..n];
  }
}
