/** Content-Length: where a header is taken to say it, what number is read there, and the bytes that are
    taken from the stream because of it. */
module ContentLength {
  import opened Text
  import opened MathUtils
  import opened Http
  import opened HttpSyntax
  import opened Net
  import opened RecvController
  import opened Receive
  import opened Framing
  import opened ReceiveRuns
  import opened RoundTrip

  lemma {:induction false} SqueezeBlanks(pad: string, s: string)
    requires forall i | 0 <= i < |pad| :: IsBlank(pad[i])
    ensures Squeeze(pad + s) == Squeeze(s)
  {
    if pad == "" {
      assert pad + s == s;
    } else {
      assert (pad + s)[1..] == pad[1..] + s;
      SqueezeBlanks(pad[1..], s);
    }
  }

  lemma {:induction false} SqueezeDigits(digits: string, s: string)
    requires AllDigits(digits)
    ensures Squeeze(digits + s) == digits + Squeeze(s)
  {
    if digits == "" {
      assert digits + s == s;
    } else {
      assert (digits + s)[1..] == digits[1..] + s && (digits + s)[0] == digits[0];
      SqueezeDigits(digits[1..], s);
      assert digits == [digits[0]] + digits[1..];
    }
  }

  lemma {:induction false} SqueezeAppend(a: string, b: string)
    ensures Squeeze(a + b) == Squeeze(a) + Squeeze(b)
  {
    if a == "" {
      assert a + b == b;
    } else {
      assert (a + b)[1..] == a[1..] + b;
      SqueezeAppend(a[1..], b);
    }
  }

  /** Blanks and a decimal number are read as that number, whatever follows, unless what follows is,
      after more blanks, another digit. */
  lemma UintReadsDecimal(pad: string, digits: string, tail: string)
    requires (forall i | 0 <= i < |pad| :: IsBlank(pad[i])) && AllDigits(digits) && digits != ""
    requires Squeeze(tail) == "" || !IsDigit(Squeeze(tail)[0])
    ensures Uint(pad + (digits + tail)) == Decimal(digits)
  {
    SqueezeBlanks(pad, digits + tail);
    SqueezeDigits(digits, tail);
    var t := digits + Squeeze(tail);
    SpanIs(t, IsDigit, |digits|);
    assert t[..|digits|] == digits;
  }

  /** The number that a field's value is taken to be: its blanks dropped, wherever they stand, the
      digits at its start; -1 when it does not start with a digit. */
  function NumberOf(value: string): int {
    var t := Squeeze(value);
    var n := Span(t, IsDigit);
    if n == 0 then -1 else Decimal(t[..n])
  }

  /** What is read from the rest of a header is the number of the first line of it. */
  lemma LineNumber(value: string, tail: string)
    requires tail != "" && tail[0] == '\r'
    ensures Uint(value + tail) == NumberOf(value)
  {
    SqueezeAppend(value, tail);
    var t, u := Squeeze(value), Squeeze(tail);
    assert u[0] == '\r';
    var n := Span(t, IsDigit);
    assert (t + u)[n] == if n < |t| then t[n] else u[0];
    SpanIs(t + u, IsDigit, n);
    assert (t + u)[..n] == t[..n];
  }

  /** A value of digits and blanks is the number of all its digits, even with blanks between them. */
  lemma DigitsAndBlanks(value: string, digits: string)
    requires Squeeze(value) == digits && AllDigits(digits) && digits != ""
    ensures NumberOf(value) == Decimal(digits)
  {
    SpanIs(digits, IsDigit, |digits|);
    assert digits[..|digits|] == digits;
  }

  predicate AllBlank(s: string) {
    forall i | 0 <= i < |s| :: IsBlank(s[i])
  }

  /** A text that ends without a line end is read the same way, except that nothing but blanks counts as 0. */
  lemma NumberWithoutLine(s: string)
    ensures Uint(s) == if AllBlank(s) then 0 else NumberOf(s)
  {
    BlankIsSqueezed(s);
  }

  lemma {:induction false} BlankIsSqueezed(s: string)
    ensures Squeeze(s) == "" <==> AllBlank(s)
  {
    if s != "" {
      BlankIsSqueezed(s[1..]);
      assert AllBlank(s) ==> AllBlank(s[1..]);
      assert AllBlank(s[1..]) && IsBlank(s[0]) ==> AllBlank(s) by {
        assert forall i | 1 <= i < |s| :: s[i] == s[1..][i - 1];
      }
    }
  }

  /** A value as blanks, digits, and the rest of it. */
  datatype Parts = Parts(pad: string, digits: string, tail: string)

  function PartsOf(value: string): Parts {
    var n := Span(value, IsBlank);
    var m := Span(value[n..], IsDigit);
    Parts(value[..n], value[n..][..m], value[n..][m..])
  }

  /** What a reader makes of a value that accepts nothing but a number with blanks around it. */
  function StrictNumberOf(value: string): int {
    var p := PartsOf(value);
    if p.digits != "" && AllBlank(p.tail) then Decimal(p.digits) else -1
  }

  lemma {:induction false} DecimalIsNatural(digits: string)
    requires AllDigits(digits)
    ensures Decimal(digits) >= 0
  {
    if digits != "" {
      assert IsDigit(digits[|digits| - 1]);
      DecimalIsNatural(digits[..|digits| - 1]);
    }
  }

  lemma PartsMakeValue(value: string)
    ensures var p := PartsOf(value);
            && value == p.pad + (p.digits + p.tail) && AllBlank(p.pad) && AllDigits(p.digits)
            && (p.tail != "" ==> !IsDigit(p.tail[0]) && (p.digits == "" ==> !IsBlank(p.tail[0])))
  {
    hide Span;
    hide IsBlank;
    var n := Span(value, IsBlank);
    var rest := value[n..];
    var m := Span(rest, IsDigit);
    assert rest[..m] + rest[m..] == rest && value[..n] + rest == value;
    assert rest != "" ==> rest[0] == value[n];
    assert rest[m..] != "" ==> rest[m..][0] == rest[m];
  }

  /** A number is read exactly when there are digits behind the leading blanks. */
  lemma NumberOfParts(value: string)
    ensures var p := PartsOf(value);
            && Squeeze(value) == p.digits + Squeeze(p.tail)
            && (if p.digits == "" then NumberOf(value) == -1 else NumberOf(value) >= 0)
  {
    hide PartsOf;
    hide Decimal;
    var p := PartsOf(value);
    PartsMakeValue(value);
    SqueezeBlanks(p.pad, p.digits + p.tail);
    SqueezeDigits(p.digits, p.tail);
    var t := Squeeze(value);
    var n := Span(t, IsDigit);
    if p.digits == "" {
      assert t == Squeeze(p.tail);
    } else {
      assert t[0] == p.digits[0] && IsDigit(t[0]);
      DecimalIsNatural(t[..n]);
    }
  }

  /** The values that are misread: the number read is the one a strict reader finds, or neither finds any,
      exactly when the value has no digits behind its leading blanks or only blanks behind those digits. */
  lemma MisreadValues(value: string)
    ensures var p := PartsOf(value);
            NumberOf(value) == StrictNumberOf(value) <==> p.digits == "" || AllBlank(p.tail)
  {
    hide PartsOf;
    hide NumberOf;
    hide Squeeze;
    hide Decimal;
    var p := PartsOf(value);
    PartsMakeValue(value);
    NumberOfParts(value);
    if p.digits != "" && AllBlank(p.tail) {
      assert p.tail + "" == p.tail && p.digits + "" == p.digits;
      SqueezeBlanks(p.tail, "");
      SqueezeNothing();
      DigitsAndBlanks(value, p.digits);
    }
  }

  lemma SqueezeNothing()
    ensures Squeeze("") == ""
  {
  }

  // ---- Where the length is read

  /** A stream whose first line announces HTTP/1.1 and whose header ends at `h`. */
  ghost predicate Opens(s: string, h: nat) {
    && Find(s, CRLF).Some?
    && Find(s, CRLF).value + 2 <= |s| && ParseVersion(s[..Find(s, CRLF).value + 2]).Parsed?
    && ParseVersion(s[..Find(s, CRLF).value + 2]).value.Http11?
    && h <= |s| && Find(s, END_OF_HEADER).Some? && Find(s, END_OF_HEADER).value + 4 == h
  }

  lemma OpensVerdict(s: string, h: nat)
    requires Opens(s, h)
    ensures Classify(s) == Verdict(s[..h])
  {
    hide Find;
    hide ParseVersion;
    hide Verdict;
    hide Classify;
    hide ClassifyHeader;
    ClassifyUnfolds(s);
    ClassifyHeaderUnfolds(s);
  }

  /** A line of the text begins at index `k`. */
  predicate IsLineStart(s: string, k: nat) {
    k == 0 || (k >= 2 && IsLineEnd(s, k - 2))
  }

  /** The text from index `i` to the next line end. */
  function RestOfLine(s: string, i: nat): string
    requires i <= |s|
  {
    match LineEndFrom(s, i) case None => s[i..] case Some(e) => s[i..e]
  }

  /** The framing by a header of `h` bytes and what was read as its length. */
  function ByNumber(h: nat, n: int): Framing {
    if n < 0 then BadLength(h) else Sized(h, n)
  }

  /** The text searched for has no character of a line end, so it lies before the end of the header. */
  lemma BeforeHeaderEnd(s: string, h: nat, l: nat)
    requires 4 <= h <= |s| && MatchesAt(s, END_OF_HEADER, h - 4) && MatchesAt(s[..h], CONTENT_LENGTH, l)
    ensures l + |CONTENT_LENGTH| <= h - 4 && IsLineEnd(s, h - 4) && IsLineEnd(s, h - 2)
  {
    MatchesTwoLineEnds(s, h - 4);
    assert ToLower(s[..h][l + 14]) == ToLower(CONTENT_LENGTH[14]) == ':';
    assert s[..h][l + 14] == s[l + 14];
  }

  /** A header with a length: it is the number in the line of its leftmost occurrence. */
  lemma LengthIsRead(s: string, h: nat, l: nat)
    requires Opens(s, h) && Find(s[..h], CONTENT_LENGTH) == Some(l)
    ensures l + |CONTENT_LENGTH| <= h - 4
    ensures Classify(s) == ByNumber(h, NumberOf(RestOfLine(s, l + |CONTENT_LENGTH|)))
  {
    hide Find;
    hide ParseVersion;
    hide Uint;
    hide NumberOf;
    hide MatchesAt;
    hide Classify;
    OpensVerdict(s, h);
    FindIsLeftmost(s[..h], CONTENT_LENGTH);
    FindIsLeftmost(s, END_OF_HEADER);
    BeforeHeaderEnd(s, h, l);
    var i := l + |CONTENT_LENGTH|;
    var e := LineEndFrom(s, i).value;
    assert e <= h - 4 && s[..h][i..] == s[i..e] + s[e..h];
    LineNumber(s[i..e], s[e..h]);
  }

  /** A Content-Length field of the header of `s`: the name stands at the beginning of a line. */
  predicate IsLengthField(s: string, h: nat, k: nat)
    requires h <= |s|
  {
    IsLineStart(s, k) && MatchesAt(s[..h], CONTENT_LENGTH, k)
  }

  /** Let the first Content-Length field of a header start at `k`. The length is read from that field
      exactly when the text `Content-Length:` occurs nowhere before it; otherwise it is read, past
      that text, from a line that is no Content-Length field. */
  lemma FieldIsReadUnlessHidden(s: string, h: nat, k: nat)
    requires Opens(s, h) && IsLengthField(s, h, k) && forall j: nat | j < k :: !IsLengthField(s, h, j)
    ensures var found := Find(s[..h], CONTENT_LENGTH);
            && found.Some? && found.value <= k && found.value + |CONTENT_LENGTH| <= h - 4
            && (found.value == k <==> forall j: nat | j < k :: !MatchesAt(s[..h], CONTENT_LENGTH, j))
            && (found.value != k ==> !IsLineStart(s, found.value))
            && Classify(s) == ByNumber(h, NumberOf(RestOfLine(s, found.value + |CONTENT_LENGTH|)))
  {
    hide Find;
    hide Opens;
    hide MatchesAt;
    hide Classify;
    hide NumberOf;
    hide RestOfLine;
    hide IsLineStart;
    OpensFits(s, h);
    FindIsLeftmost(s[..h], CONTENT_LENGTH);
    var l := Find(s[..h], CONTENT_LENGTH).value;
    LengthIsRead(s, h, l);
    assert l < k ==> !IsLengthField(s, h, l);
  }

  lemma OpensFits(s: string, h: nat)
    requires Opens(s, h)
    ensures h <= |s|
  {
  }

  // ---- What the length makes the receive take

  /** A header in which the leftmost Content-Length, in any case, is followed by the decimal number
      `digits`, with blanks around it. */
  ghost predicate Announces(s: string, h: nat, digits: string) {
    && Opens(s, h) && Find(s[..h], CONTENT_LENGTH).Some?
    && AllDigits(digits) && digits != ""
    && exists pad, tail :: IsLengthText(s[..h], pad, digits, tail)
  }

  ghost predicate IsLengthText(head: string, pad: string, digits: string, tail: string)
    requires Find(head, CONTENT_LENGTH).Some?
  {
    && Find(head, CONTENT_LENGTH).value + |CONTENT_LENGTH| <= |head|
    && head[Find(head, CONTENT_LENGTH).value + |CONTENT_LENGTH|..] == pad + (digits + tail)
    && (forall i | 0 <= i < |pad| :: IsBlank(pad[i]))
    && (Squeeze(tail) == "" || !IsDigit(Squeeze(tail)[0]))
  }

  lemma AnnouncedVerdict(head: string, pad: string, digits: string, tail: string)
    requires Find(head, CONTENT_LENGTH).Some? && AllDigits(digits) && digits != ""
    requires IsLengthText(head, pad, digits, tail)
    ensures Decimal(digits) >= 0 && Verdict(head) == Sized(|head|, Decimal(digits))
  {
    hide Find;
    hide Uint;
    hide Squeeze;
    UintReadsDecimal(pad, digits, tail);
    DecimalIsNatural(digits);
  }

  lemma AnnouncedSize(s: string, h: nat, digits: string)
    requires Announces(s, h, digits)
    ensures Decimal(digits) >= 0 && Classify(s) == Sized(h, Decimal(digits))
  {
    hide Find;
    hide ParseVersion;
    hide IsLengthText;
    hide Verdict;
    hide Decimal;
    hide Classify;
    OpensVerdict(s, h);
    var pad, tail :| IsLengthText(s[..h], pad, digits, tail);
    AnnouncedVerdict(s[..h], pad, digits, tail);
  }

  /** In chunks of any size, a call takes the header and as many bytes as the number after the leftmost
      Content-Length says, or what the limit allows of them, and leaves the rest of the stream alone. */
  lemma ContentLengthIsObeyed(p: Params, net: Net, cap: nat, og: int, h: nat, digits: string)
    requires p.http && p.minCap >= 1 && cap >= p.initialLen && AllData(net.script)
    requires Announces(net.incoming, h, digits)
    ensures Decimal(digits) >= 0
    ensures var r, n := Run(p, Start(p, net, cap, og)), OptMin(h + Decimal(digits), og);
            && n >= 0
            && (r.status.Done? && n <= |net.incoming| ==> Took(r, net.incoming, n, 0))
            && (|net.script| >= n && n <= |net.incoming| ==> r.status.Done?)
  {
    hide *;
    AnnouncedSize(net.incoming, h, digits);
    FramingExact(p, net, cap, og);
    SizedOutcome(og, net, Run(p, Start(p, net, cap, og)), h, Decimal(digits));
  }

  lemma SizedOutcome(og: int, net: Net, r: Recv, h: nat, length: nat)
    requires Classify(net.incoming) == Sized(h, length)
    ensures var n := OptMin(h + length, og);
            && n >= 0 && n == Extent(true, net.incoming, og)
            && (Outcome(true, og, net, r) && n <= |net.incoming| ==> Took(r, net.incoming, n, 0))
  {
    hide Classify;
  }

  // ---- Inputs

  const OK_LINE: string := "HTTP/1.1 200 OK"

  /** A message with one header line of interest: `before`, the text `Content-Length:`, `value`; what
      follows that line is `after`. */
  function MessageWith(before: string, value: string, after: string): string {
    OK_LINE + (CRLF + (before + (CONTENT_LENGTH + (value + (CRLF + after)))))
  }

  lemma FirstLineOfMessage(rest: string)
    ensures var s := OK_LINE + (CRLF + rest);
            && Find(s, CRLF) == Some(15) && |s| >= 17
            && ParseVersion(s[..17]) == Parsed(Http11, " 200 OK\r\n")
  {
    hide ParseVersion;
    var s := OK_LINE + (CRLF + rest);
    FindSkip(OK_LINE, CRLF + rest, CRLF);
    FindIs(CRLF + rest, CRLF, 0);
    VersionRoundTrip(Http11, " 200 OK\r\n");
    assert s[..17] == OK_LINE + CRLF == VersionText(Http11) + " 200 OK\r\n";
  }

  predicate IsPlain(s: string) {
    forall i | 0 <= i < |s| :: s[i] != '\r'
  }

  /** The end of the header is not at the first line end, nor inside the line of interest. */
  lemma HeaderEndOfMessage(line: string, after: string, e: nat)
    requires line != "" && IsPlain(line) && Find(CRLF + after, END_OF_HEADER) == Some(e)
    ensures Find(OK_LINE + (CRLF + (line + (CRLF + after))), END_OF_HEADER) == Some(17 + |line| + e)
  {
    hide Find;
    var rest := line + (CRLF + after);
    FindSkip(OK_LINE, CRLF + rest, END_OF_HEADER);
    forall i: nat | i < |CRLF| ensures !MatchesAt(CRLF + rest, END_OF_HEADER, i) {
      MatchesTwoLineEnds(CRLF + rest, i);
      assert (CRLF + rest)[2] == line[0];
    }
    FindPast(CRLF, rest, END_OF_HEADER);
    FindSkip(line, CRLF + after, END_OF_HEADER);
  }

  /** How the receive controller frames such a message. */
  lemma MessageFraming(before: string, value: string, after: string, e: nat)
    requires IsPlain(before) && IsPlain(value) && forall i | 0 <= i < |before| :: ToLower(before[i]) != 'c'
    requires Find(CRLF + after, END_OF_HEADER) == Some(e)
    ensures Classify(MessageWith(before, value, after)) == ByNumber(36 + |before| + |value| + e, NumberOf(value))
  {
    hide Find;
    hide Opens;
    hide Classify;
    hide NumberOf;
    hide RestOfLine;
    var s, h := MessageWith(before, value, after), 36 + |before| + |value| + e;
    MessageOpens(before, value, after, e);
    MessageLengthAt(before, CONTENT_LENGTH + (value + (CRLF + after)), h);
    LengthIsRead(s, h, 17 + |before|);
    MessageValue(before, value, after);
  }

  lemma MessageOpens(before: string, value: string, after: string, e: nat)
    requires IsPlain(before) && IsPlain(value) && Find(CRLF + after, END_OF_HEADER) == Some(e)
    ensures Opens(MessageWith(before, value, after), 36 + |before| + |value| + e)
    ensures e + 4 <= 2 + |after|
  {
    hide Find;
    hide ParseVersion;
    var line := before + (CONTENT_LENGTH + value);
    var rest := CONTENT_LENGTH + (value + (CRLF + after));
    assert IsPlain(CONTENT_LENGTH);
    assert before + rest == line + (CRLF + after);
    FirstLineOfMessage(before + rest);
    HeaderEndOfMessage(line, after, e);
    FoundInside(CRLF + after, END_OF_HEADER);
  }

  lemma MessageValue(before: string, value: string, after: string)
    requires IsPlain(value)
    ensures RestOfLine(MessageWith(before, value, after), 32 + |before|) == value
  {
    var start := OK_LINE + CRLF + before + CONTENT_LENGTH;
    assert MessageWith(before, value, after) == start + (value + (CRLF + after));
    RestOfLineIs(start, value, after);
  }

  lemma RestOfLineIs(start: string, value: string, after: string)
    requires IsPlain(value)
    ensures RestOfLine(start + (value + (CRLF + after)), |start|) == value
  {
    var s, i := start + (value + (CRLF + after)), |start|;
    assert IsLineEnd(s, i + |value|);
    assert forall j | i <= j < i + |value| :: s[j] == value[j - i];
    assert s[i..i + |value|] == value;
  }

  lemma MessageLengthAt(before: string, rest: string, h: nat)
    requires forall i | 0 <= i < |before| :: ToLower(before[i]) != 'c'
    requires MatchesAt(rest, CONTENT_LENGTH, 0) && 32 + |before| <= h <= 17 + |before| + |rest|
    ensures Find((OK_LINE + (CRLF + (before + rest)))[..h], CONTENT_LENGTH) == Some(17 + |before|)
  {
    var s := OK_LINE + (CRLF + (before + rest));
    var a := OK_LINE + CRLF + before;
    assert s == a + rest;
    FindSkip(a, rest, CONTENT_LENGTH);
    FindIs(rest, CONTENT_LENGTH, 0);
    FindInPrefix(s, h, CONTENT_LENGTH);
  }

  lemma EmptyLineFirst(body: string)
    ensures Find(CRLF + (CRLF + body), END_OF_HEADER) == Some(0)
  {
    FindIs(CRLF + (CRLF + body), END_OF_HEADER, 0);
  }

  lemma EmptyLineNext(line: string, body: string)
    requires line != "" && IsPlain(line)
    ensures Find(CRLF + (line + (CRLF + (CRLF + body))), END_OF_HEADER) == Some(2 + |line|)
  {
    hide Find;
    var rest := line + (CRLF + (CRLF + body));
    forall i: nat | i < |CRLF| ensures !MatchesAt(CRLF + rest, END_OF_HEADER, i) {
      MatchesTwoLineEnds(CRLF + rest, i);
      assert (CRLF + rest)[2] == line[0];
    }
    FindPast(CRLF, rest, END_OF_HEADER);
    FindSkip(line, CRLF + (CRLF + body), END_OF_HEADER);
    EmptyLineFirst(body);
  }

  /** Such a message when the value consists of digits and blanks. */
  lemma SizedMessage(before: string, value: string, digits: string, after: string, e: nat)
    requires IsPlain(before) && IsPlain(value) && forall i | 0 <= i < |before| :: ToLower(before[i]) != 'c'
    requires Find(CRLF + after, END_OF_HEADER) == Some(e)
    requires Squeeze(value) == digits && AllDigits(digits) && digits != ""
    ensures Decimal(digits) >= 0
    ensures Classify(MessageWith(before, value, after)) == Sized(36 + |before| + |value| + e, Decimal(digits))
  {
    hide *;
    MessageFraming(before, value, after, e);
    DigitsAndBlanks(value, digits);
    DecimalIsNatural(digits);
    NumberFrames(36 + |before| + |value| + e, Decimal(digits));
  }

  lemma NumberFrames(h: nat, n: int)
    ensures n >= 0 ==> ByNumber(h, n) == Sized(h, n)
  {
  }

  lemma OneDigit()
    ensures Squeeze(" 9") == "9" && Decimal("9") == 9 && Squeeze(" 5") == "5" && Decimal("5") == 5
  {
  }

  lemma TwoDigits()
    ensures Squeeze(" 1 2") == "12" && Decimal("12") == 12
  {
    assert "12"[..1] == "1";
  }

  /** Of the lines `X-Content-Length: 9` and `Content-Length: 2` the first one is obeyed. */
  lemma OtherFieldIsReadFirst(body: string)
    ensures Classify(MessageWith("X-", " 9", CONTENT_LENGTH + " 2" + (CRLF + (CRLF + body)))) == Sized(59, 9)
  {
    hide Classify;
    hide MessageWith;
    hide Find;
    hide Squeeze;
    hide Decimal;
    OneDigit();
    EmptyLineNext(CONTENT_LENGTH + " 2", body);
    SizedMessage("X-", " 9", "9", CONTENT_LENGTH + " 2" + (CRLF + (CRLF + body)), 19);
  }

  /** A blank inside the number is skipped. */
  lemma BlankInNumber(body: string)
    ensures Classify(MessageWith("", " 1 2", CRLF + body)) == Sized(40, 12)
  {
    hide Classify;
    hide MessageWith;
    hide Find;
    hide Squeeze;
    hide Decimal;
    TwoDigits();
    EmptyLineFirst(body);
    SizedMessage("", " 1 2", "12", CRLF + body, 0);
  }

  /** Tabs are blanks, too. */
  lemma TabInNumber(body: string)
    ensures Classify(MessageWith("", "\t1\t2", CRLF + body)) == Sized(40, 12)
  {
    hide Classify;
    hide MessageWith;
    hide Find;
    hide Squeeze;
    hide Decimal;
    TwoDigitsAndTabs();
    TwoDigits();
    EmptyLineFirst(body);
    SizedMessage("", "\t1\t2", "12", CRLF + body, 0);
  }

  lemma TwoDigitsAndTabs()
    ensures Squeeze("\t1\t2") == "12"
  {
  }

  /** What follows the digits is ignored. */
  lemma LettersInNumber(body: string)
    ensures Classify(MessageWith("", " 12abc", CRLF + body)) == Sized(42, 12)
  {
    hide Classify;
    hide MessageWith;
    hide Find;
    hide NumberOf;
    hide StrictNumberOf;
    EmptyLineFirst(body);
    MessageFraming("", " 12abc", CRLF + body, 0);
    LettersIgnored();
  }

  /** Digits with something behind them that is neither a digit nor a blank. */
  lemma DigitsThenOther(pad: string, digits: string, other: string)
    requires AllBlank(pad) && AllDigits(digits) && digits != ""
    requires other != "" && !IsBlank(other[0]) && !IsDigit(other[0])
    ensures NumberOf(pad + (digits + other)) == Decimal(digits) && StrictNumberOf(pad + (digits + other)) == -1
  {
    hide Decimal;
    var value, rest := pad + (digits + other), digits + other;
    SqueezeBlanks(pad, rest);
    SqueezeDigits(digits, other);
    SpanIs(digits + Squeeze(other), IsDigit, |digits|);
    assert (digits + Squeeze(other))[..|digits|] == digits;
    assert rest[0] == digits[0];
    SpanIs(value, IsBlank, |pad|);
    assert value[|pad|..] == rest;
    SpanIs(rest, IsDigit, |digits|);
    assert rest[|digits|..] == other;
  }

  lemma LettersIgnored()
    ensures NumberOf(" 12abc") == 12 && StrictNumberOf(" 12abc") == -1
  {
    hide NumberOf;
    hide StrictNumberOf;
    hide Squeeze;
    DigitsThenOther(" ", "12", "abc");
    assert " " + ("12" + "abc") == " 12abc";
    TwoDigits();
  }

  /** A length that is no number counts as no error: the message is taken to end with its header. */
  lemma NoNumber(body: string)
    ensures Classify(MessageWith("", " x", CRLF + body)) == BadLength(38)
  {
    hide Classify;
    hide MessageWith;
    hide Find;
    EmptyLineFirst(body);
    MessageFraming("", " x", CRLF + body, 0);
  }
}
