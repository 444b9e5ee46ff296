/** How a stream of bytes divides into a message and what follows it, and that receiving byte by byte
    under the controller finds exactly that division, however the bytes arrive. */
module Framing {
  import opened Text
  import opened MathUtils
  import opened Http
  import opened HttpSyntax
  import opened Net
  import opened RecvController
  import opened Receive

  /** What the start of a stream says about the message at its front. `stop` counts bytes. */
  datatype Framing =
    | NoLine                                // the first line is not complete
    | BadVersion(stop: nat)                 // the first line does not start with a version
    | UntilClose                            // a version without lengths: everything until the close
    | NoHeaderEnd                           // the header is not complete
    | NoLength(stop: nat)                   // a complete header without a length
    | BadLength(stop: nat)                  // a complete header whose length is not a number
    | Sized(header: nat, length: nat)       // header and body of known size

  function Classify(s: string): Framing {
    FoundInside(s, CRLF);
    match Find(s, CRLF)
    case None => NoLine
    case Some(e) =>
      match ParseVersion(s[..e + 2])
      case Fail => BadVersion(e + 2)
      case Parsed(v, _) => if v.Http11? then ClassifyHeader(s) else UntilClose
  }

  function ClassifyHeader(s: string): Framing {
    FoundInside(s, END_OF_HEADER);
    match Find(s, END_OF_HEADER)
    case None => NoHeaderEnd
    case Some(k) => Verdict(s[..k + 4])
  }

  function Verdict(head: string): Framing {
    FoundInside(head, CONTENT_LENGTH);
    match Find(head, CONTENT_LENGTH)
    case None => NoLength(|head|)
    case Some(l) =>
      var length := Uint(head[l + |CONTENT_LENGTH|..]);
      if length < 0 then BadLength(|head|) else Sized(|head|, length)
  }

  predicate Undecided(f: Framing) {
    f.NoLine? || f.NoHeaderEnd?
  }

  /** Where the message ends, or -1 when the stream does not say. */
  function StopAt(f: Framing): int {
    match f
    case NoLine => -1
    case BadVersion(n) => n
    case UntilClose => -1
    case NoHeaderEnd => -1
    case NoLength(n) => n
    case BadLength(n) => n
    case Sized(h, n) => h + n
  }

  // ---- Classification of growing prefixes

  lemma ExtendFind(s: string, t: string, needle: string)
    ensures Find(s, needle).Some? ==> Find(s + t, needle) == Find(s, needle)
    ensures Find(s, needle).None? && Find(s + t, needle).Some? ==> Find(s + t, needle).value + |needle| > |s|
  {
    assert (s + t)[..|s|] == s;
    FindInPrefix(s + t, |s|, needle);
  }

  /** Once a prefix decides the framing, no later byte changes it. */
  lemma DecidedIsFinal(s: string, t: string)
    ensures !Undecided(Classify(s)) ==> Classify(s + t) == Classify(s)
  {
    hide ParseVersion;
    hide Verdict;
    ExtendFind(s, t, CRLF);
    ExtendFind(s, t, END_OF_HEADER);
    FoundInside(s, CRLF);
    FoundInside(s, END_OF_HEADER);
    match Find(s, CRLF)
    case None =>
    case Some(e) =>
      assert (s + t)[..e + 2] == s[..e + 2];
      match Find(s, END_OF_HEADER)
      case None =>
      case Some(k) => assert (s + t)[..k + 4] == s[..k + 4];
  }

  /** Where a prefix leaves the framing open, the message ends later than the prefix. */
  lemma UndecidedStopsLater(s: string, t: string)
    ensures Undecided(Classify(s)) ==> StopAt(Classify(s + t)) == -1 || StopAt(Classify(s + t)) > |s|
  {
    hide ParseVersion;
    hide Find;
    ExtendFind(s, t, CRLF);
    ExtendFind(s, t, END_OF_HEADER);
    FoundInside(s, CRLF);
    FoundInside(s, END_OF_HEADER);
    HeaderEndHasLineEnd(s + t);
    FoundInside(s + t, END_OF_HEADER);
    FoundInside(s + t, CRLF);
    match Find(s, CRLF)
    case None =>
    case Some(e) => assert (s + t)[..e + 2] == s[..e + 2];
  }

  /** The end of the header lies behind the end of the first line. */
  lemma HeaderEndHasLineEnd(s: string)
    ensures Find(s, END_OF_HEADER).Some? ==>
              Find(s, CRLF).Some? && Find(s, CRLF).value <= Find(s, END_OF_HEADER).value
  {
    FindIsLeftmost(s, END_OF_HEADER);
    FindIsLeftmost(s, CRLF);
    if Find(s, END_OF_HEADER).Some? {
      var k := Find(s, END_OF_HEADER).value;
      assert MatchesAt(s, CRLF, k) by {
        forall j | 0 <= j < |CRLF| ensures ToLower(s[k + j]) == ToLower(CRLF[j]) {
          assert CRLF[j] == END_OF_HEADER[j];
        }
      }
    }
  }

  /** After one more byte, a text that was not there before ends with that byte. */
  lemma FoundAtTheEnd(b: string, x: char, needle: string)
    requires Find(b, needle).None? && |needle| > 0
    ensures Find(b + [x], needle).Some? ==> Find(b + [x], needle).value + |needle| == |b| + 1
  {
    ExtendFind(b, [x], needle);
    FoundInside(b + [x], needle);
  }

  /** Looking for the end of the header in the last four bytes only. */
  lemma SuffixSearch(b: string)
    requires |b| >= 4
    ensures Find(b[|b| - 4..], END_OF_HEADER).Some? <==> MatchesAt(b, END_OF_HEADER, |b| - 4)
  {
    var t := b[|b| - 4..];
    FindIsLeftmost(t, END_OF_HEADER);
    if MatchesAt(b, END_OF_HEADER, |b| - 4) {
      assert MatchesAt(t, END_OF_HEADER, 0) by {
        forall j | 0 <= j < |END_OF_HEADER| ensures ToLower(t[0 + j]) == ToLower(END_OF_HEADER[j]) {
          assert t[0 + j] == b[|b| - 4 + j];
        }
      }
    }
    if Find(t, END_OF_HEADER).Some? {
      var k := Find(t, END_OF_HEADER).value;
      assert k == 0;
      forall j | 0 <= j < |END_OF_HEADER| ensures ToLower(b[|b| - 4 + j]) == ToLower(END_OF_HEADER[j]) {
        assert t[0 + j] == b[|b| - 4 + j];
      }
    }
  }

  /** In a buffer whose header was not complete one byte ago, the search of the last four bytes finds
      the end of the header exactly when the search of the whole buffer does, and then the header ends
      with the buffer: no byte of the body has been read. */
  lemma SuffixTestIsLeftmostSearch(b: string)
    requires b != "" && Find(b[..|b| - 1], END_OF_HEADER).None?
    ensures |b| >= 4 && Find(b[|b| - 4..], END_OF_HEADER).Some? <==> Find(b, END_OF_HEADER).Some?
    ensures Find(b, END_OF_HEADER).Some? ==> Find(b, END_OF_HEADER).value + |END_OF_HEADER| == |b|
  {
    assert b == b[..|b| - 1] + [b[|b| - 1]];
    FoundAtTheEnd(b[..|b| - 1], b[|b| - 1], END_OF_HEADER);
    FindIsLeftmost(b, END_OF_HEADER);
    if |b| >= 4 { SuffixSearch(b); }
  }

  // ---- The controller keeps step with the classification

  /** The controller's state and limit after receiving `b`, when the caller's limit is `og`. */
  ghost predicate InStep(og: int, c: Ctl, b: string, maxLen: int) {
    && c.ogMaxLen == og
    && match Classify(b)
       case NoLine => c.version == 0 && c.phase == 1 && maxLen == OptMin(|b| + 1, og)
       case UntilClose => (c.version == 9 || c.version == 10) && c.phase == 2 && maxLen == og
       case NoHeaderEnd => c.version == 11 && c.phase == 2 && maxLen == OptMin(|b| + 1, og)
       case Sized(h, n) => c.version == 11 && c.phase == LAST_PHASE && h <= |b| && maxLen == OptMin(h + n, og)
       case BadLength(h) => |b| == h && maxLen == h
       case BadVersion(_) => false
       case NoLength(_) => false
  }

  /** The call before anything is received. */
  lemma FirstCall(og: int, c: Ctl, b: string)
    requires c.version == 0 && c.phase == 0 && |b| == 0
    ensures var t := Control(c, b, og);
            t.action.Continue? && t.maxLen == OptMin(1, og) && InStep(og, t.ctl, b, t.maxLen)
  {
    FoundInside(b, CRLF);
    assert Classify(b).NoLine?;
  }

  /** What the controller does with the received bytes `b`. */
  ghost predicate GoodTurn(og: int, t: Turn, b: string) {
    var f := Classify(b);
    && !t.action.Finished?
    && (t.action.Reject? <==> f.BadVersion? || f.NoLength?)
    && (t.action.Reject? ==> StopAt(f) == |b|)
    && (t.action.Continue? ==> InStep(og, t.ctl, b, t.maxLen))
    && Within(|b|, t.maxLen)
  }

  lemma ClassifyFirstLine(b: string)
    requires Find(b, CRLF).Some? && Find(b, CRLF).value + 2 == |b|
    ensures Classify(b) ==
            match ParseVersion(b)
            case Fail => BadVersion(|b|)
            case Parsed(v, _) => if v.Http11? then ClassifyHeader(b) else UntilClose
  {
    var e := Find(b, CRLF).value;
    assert b[..e + 2] == b;
    ClassifyUnfolds(b);
  }

  lemma ClassifyUnfolds(b: string)
    ensures match Find(b, CRLF)
            case None => Classify(b) == NoLine
            case Some(e) =>
              && e + 2 <= |b|
              && Classify(b) == match ParseVersion(b[..e + 2])
                                case Fail => BadVersion(e + 2)
                                case Parsed(v, _) => if v.Http11? then ClassifyHeader(b) else UntilClose
  {
    FoundInside(b, CRLF);
  }

  lemma ClassifyHeaderUnfolds(b: string)
    ensures match Find(b, END_OF_HEADER)
            case None => ClassifyHeader(b) == NoHeaderEnd
            case Some(k) => k + 4 <= |b| && ClassifyHeader(b) == Verdict(b[..k + 4])
    ensures Find(b, END_OF_HEADER).Some? ==> !ClassifyHeader(b).NoHeaderEnd?
  {
    FoundInside(b, END_OF_HEADER);
  }

  lemma NoHeaderYet(b: string)
    requires Find(b, CRLF).Some? && Find(b, CRLF).value + 2 == |b|
    ensures ClassifyHeader(b) == NoHeaderEnd
  {
    hide *;
    HeaderEndHasLineEnd(b);
    ClassifyHeaderUnfolds(b);
  }

  lemma TurnInFirstLine(og: int, c: Ctl, b: string, x: char)
    requires Classify(b).NoLine? && c.ogMaxLen == og && c.version == 0 && c.phase == 1 && Within(|b| + 1, og)
    ensures GoodTurn(og, FirstLineTurn(c, b + [x]), b + [x])
  {
    hide ParseVersion;
    hide Find;
    FoundAtTheEnd(b, x, CRLF);
    if Find(b + [x], CRLF).Some? {
      hide ClassifyHeader;
      ClassifyFirstLine(b + [x]);
      NoHeaderYet(b + [x]);
    }
  }

  lemma HeaderIsGood(og: int, c: Ctl, b: string, f: Framing)
    requires f == Classify(b) == Verdict(b)
    requires Find(b, END_OF_HEADER).Some? && Find(b, END_OF_HEADER).value + 4 == |b|
    requires c.ogMaxLen == og && c.version == 11 && c.phase == 3 && Within(|b|, og)
    ensures GoodTurn(og, HeaderDone(c, b, |b|), b)
  {
    hide Classify;
    hide Find;
    hide Uint;
  }

  /** Behind a complete first line that announces lengths, only the header is left to classify. */
  lemma ClassifyPastFirstLine(b: string, t: string)
    requires Classify(b).NoHeaderEnd?
    ensures Find(b, END_OF_HEADER).None?
    ensures Classify(b + t) == ClassifyHeader(b + t)
  {
    hide *;
    ExtendFind(b, t, CRLF);
    ClassifyUnfolds(b);
    ClassifyUnfolds(b + t);
    ClassifyHeaderUnfolds(b);
    var e := Find(b, CRLF).value;
    assert (b + t)[..e + 2] == b[..e + 2];
  }

  lemma TurnInHeader(og: int, c: Ctl, b: string, x: char)
    requires Classify(b).NoHeaderEnd? && c.ogMaxLen == og && c.version == 11 && c.phase == 2 && Within(|b| + 1, og)
    ensures GoodTurn(og, HeaderTurn(c, b + [x], |b| + 1), b + [x])
  {
    var b1 := b + [x];
    assert b1[..|b1| - 1] == b && b1[..|b1|] == b1;
    ClassifyPastFirstLine(b, [x]);
    SuffixTestIsLeftmostSearch(b1);
    ClassifyHeaderUnfolds(b1);
    if Find(b1, END_OF_HEADER).Some? {
      HeaderIsGood(og, c.(phase := 3), b1, Classify(b1));
    }
  }

  lemma TurnKeepsStep(og: int, c: Ctl, b: string, maxLen: int, x: string)
    requires InStep(og, c, b, maxLen) && x != "" && Within(|b| + |x|, maxLen)
    ensures GoodTurn(og, Control(c, b + x, maxLen), b + x)
  {
    hide Classify;
    hide FirstLineTurn;
    hide HeaderTurn;
    hide HeaderDone;
    hide LateHeaderTurn;
    DecidedIsFinal(b, x);
    if Undecided(Classify(b)) {
      assert x == [x[0]];
      if Classify(b).NoLine? {
        TurnInFirstLine(og, c, b, x[0]);
      } else {
        TurnInHeader(og, c, b, x[0]);
      }
    }
  }
}
