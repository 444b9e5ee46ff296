/** Where a message ends and what becomes of it, in terms of its text alone. */
module MessageEnds {
  import opened Text
  import opened MathUtils
  import opened Http
  import opened HttpSyntax
  import opened Net
  import opened RecvController
  import opened Receive
  import opened Framing
  import opened ReceiveRuns
  import opened ContentLength
  import opened FirstLines

  /** The line begins with a version that is followed by something other than a digit. */
  ghost predicate HasVersion(line: string, v: Version) {
    exists rest :: IsVersionThen(line, v, rest)
  }

  ghost predicate IsVersionThen(line: string, v: Version, rest: string) {
    rest != "" && !IsDigit(rest[0]) && BeginsWithVersion(line, v, rest)
  }

  lemma NumberStops(s: string)
    requires ParseVersionNumber(s).Parsed? && s != "" && !IsDigit(s[|s| - 1])
    ensures var rest := ParseVersionNumber(s).rest; rest != "" && !IsDigit(rest[0])
  {
    hide Span;
    var n := Span(s, IsDigit);
    assert n < |s| by { assert n > 0 ==> IsDigit(s[n - 1]); }
    var r1 := s[n..][1..];
    assert r1 != "" ==> r1[|r1| - 1] == s[|s| - 1];
    var m := Span(r1, IsDigit);
    assert m > 0 ==> IsDigit(r1[m - 1]);
    assert m < |r1| ==> r1[m..][0] == r1[m];
  }

  lemma VersionStops(s: string)
    requires ParseVersion(s).Parsed? && s != "" && !IsDigit(s[|s| - 1])
    ensures var rest := ParseVersion(s).rest; rest != "" && !IsDigit(rest[0])
  {
    hide ParseVersionNumber;
    hide Span;
    hide MatchesAt;
    var n := Span(s, IsLetter);
    LeadingStops(s, IsLetter, '/');
    var r1 := s[n..][1..];
    NoNumberInNothing();
    assert r1 != "" ==> r1[|r1| - 1] == s[|s| - 1];
    NumberStops(r1);
  }

  lemma NoNumberInNothing()
    ensures ParseVersionNumber("").Fail?
  {
  }

  /** The version that a complete line begins with is the one that is read from it. */
  lemma LineVersion(line: string, v: Version)
    requires line != "" && !IsDigit(line[|line| - 1])
    ensures HasVersion(line, v) <==> ParseVersion(line).Parsed? && ParseVersion(line).value == v
  {
    hide ParseVersion;
    hide BeginsWithVersion;
    if ParseVersion(line).Parsed? && ParseVersion(line).value == v {
      var rest := ParseVersion(line).rest;
      VersionStops(line);
      VersionLanguage(line, v, rest);
      assert IsVersionThen(line, v, rest);
    }
    if HasVersion(line, v) {
      var rest :| IsVersionThen(line, v, rest);
      VersionLanguage(line, v, rest);
    }
  }

  /** How the start of a stream is framed: by its first line, the first blank line, and the leftmost
      Content-Length before that. */
  lemma FramingOfText(s: string)
    ensures match LineEnd(s)
            case None => Classify(s) == NoLine
            case Some(e) =>
              var line := s[..e + 2];
              && (HasVersion(line, Http09) || HasVersion(line, Http10) ==> Classify(s) == UntilClose)
              && ((forall v :: !HasVersion(line, v)) ==> Classify(s) == BadVersion(e + 2))
              && (HasVersion(line, Http11) ==>
                    match Find(s, END_OF_HEADER)
                    case None => Classify(s) == NoHeaderEnd
                    case Some(k) =>
                      && k + 4 <= |s|
                      && match Find(s[..k + 4], CONTENT_LENGTH)
                         case None => Classify(s) == NoLength(k + 4)
                         case Some(l) =>
                           && l + |CONTENT_LENGTH| <= k
                           && Classify(s) == ByNumber(k + 4, NumberOf(RestOfLine(s, l + |CONTENT_LENGTH|))))
  {
    hide Find;
    hide ParseVersion;
    hide Classify;
    hide ClassifyHeader;
    hide HasVersion;
    hide NumberOf;
    hide RestOfLine;
    hide Uint;
    FindIsLineEnd(s);
    ClassifyUnfolds(s);
    ClassifyHeaderUnfolds(s);
    FoundInside(s, END_OF_HEADER);
    if LineEnd(s).Some? {
      var line := s[..LineEnd(s).value + 2];
      forall v ensures HasVersion(line, v) <==> ParseVersion(line).Parsed? && ParseVersion(line).value == v {
        LineVersion(line, v);
      }
      assert ParseVersion(line).Parsed? ==> HasVersion(line, ParseVersion(line).value);
      if HasVersion(line, Http11) && Find(s, END_OF_HEADER).Some? {
        var h := Find(s, END_OF_HEADER).value + 4;
        match Find(s[..h], CONTENT_LENGTH)
        case None =>
        case Some(l) => LengthIsRead(s, h, l);
      }
    }
  }

  /** What a call that ended in `r` has made of a message at the front of stream `s`, with a first line,
      but without a length that it could use: one that begins with no version is refused at the end of its
      first line, one of HTTP/1.1 without a Content-Length at the end of its header, and an older one is
      read to the close or the limit. */
  ghost predicate WithoutLength(s: string, og: int, r: Recv)
    requires LineEnd(s).Some?
  {
    var e := LineEnd(s).value;
    var line := s[..e + 2];
    && ((forall v :: !HasVersion(line, v)) ==>
          if Within(e + 2, og) then Took(r, s, e + 2, 1) else Took(r, s, og, 0))
    && (HasVersion(line, Http11) && Find(s, END_OF_HEADER).Some? ==>
          var h := Find(s, END_OF_HEADER).value + 4;
          h <= |s| &&
          (Find(s[..h], CONTENT_LENGTH).None? ==> if Within(h, og) then Took(r, s, h, 1) else Took(r, s, og, 0)))
    && (HasVersion(line, Http09) || HasVersion(line, Http10) ==>
          if Within(|s|, og) && og != |s| then r.got == s && r.status == Done(0) && r.closed
          else Took(r, s, og, 0))
  }

  lemma MessagesWithoutLength(p: Params, net: Net, cap: nat, og: int)
    requires p.http && p.minCap >= 1 && cap >= p.initialLen && AllData(net.script) && |net.script| > |net.incoming|
    ensures LineEnd(net.incoming).Some? ==> WithoutLength(net.incoming, og, Run(p, Start(p, net, cap, og)))
  {
    hide Run;
    hide Start;
    hide Find;
    hide Classify;
    hide HasVersion;
    hide Took;
    hide NumberOf;
    FramingOfText(net.incoming);
    OtherFramings(p, net, cap, og);
  }

  // ---- The phases for a header that is incomplete when its length is read

  /** Had a length `n` been read from `a`, which has no end of header, then once the text received is `b`,
      whose header ends at `h`, the limit set would be the right one, and a `b` without an end of header
      would be refused. */
  lemma LatePhasesAgree(c: Ctl, a: string, limit: int, b: string, maxLen: int, n: nat)
    requires c.Key() == 113 && Find(a, END_OF_HEADER).None?
    requires Find(a, CONTENT_LENGTH).Some? && Find(a, CONTENT_LENGTH).value + |CONTENT_LENGTH| <= |a|
    requires Uint(a[Find(a, CONTENT_LENGTH).value + |CONTENT_LENGTH|..]) == n
    ensures var t := Control(c, a, limit);
            && t.action.Continue? && t.maxLen == limit
            && var u := Control(t.ctl, b, maxLen);
               match Find(b, END_OF_HEADER)
               case None => u.action.Reject?
               case Some(k) => u.action.Continue? && u.maxLen == OptMin(k + 4 + n, c.ogMaxLen)
  {
    hide Find;
    hide Uint;
  }

  /** The correction for bytes of the body that have been received with the header is the wrong way round:
      it takes them off the end of the message. The limit is right exactly when there are none, or the
      caller's limit lies before the shortened end anyway. */
  lemma OvershotIsSubtracted(c: Ctl, b: string, maxLen: int, h: nat, n: nat)
    requires c.Key() == 113 && Find(b, END_OF_HEADER) == Some(h - 4) && 4 <= h <= |b| <= h + n
    requires Find(b, CONTENT_LENGTH).Some? && Find(b, CONTENT_LENGTH).value + |CONTENT_LENGTH| <= |b|
    requires Uint(b[Find(b, CONTENT_LENGTH).value + |CONTENT_LENGTH|..]) == n
    ensures Control(c, b, maxLen).maxLen == OptMin(h + n, c.ogMaxLen) <==>
            |b| == h || 0 <= c.ogMaxLen <= h + n - (|b| - h)
  {
    hide Find;
    hide Uint;
  }
}
