/** lib/http/recv_controller.c: the callback that decides, from the bytes received so far, how many
    more to receive. */
module RecvController {
  import opened Text
  import opened MathUtils
  import opened Http
  import opened HttpSyntax
  import Parsing
  import StringUtils

  const CONTENT_LENGTH: string := "Content-Length:"
  const INIT_BATCH: nat := 1
  const LAST_PHASE: nat := 999999

  datatype Action = Continue | Reject | Finished

  /** HttpReceiveControllerState. The version is kept as its number, 0 meaning not yet known. */
  datatype Ctl = Ctl(ogMaxLen: int, contentLength: int, version: nat, phase: nat) {
    function Key(): nat { version * 10 + phase }
  }

  const ZEROED: Ctl := Ctl(0, 0, 0, 0)

  /** What one call leaves behind. */
  datatype Turn = Turn(ctl: Ctl, maxLen: int, action: Action)

  predicate IsBlank(c: char) { c == ' ' || c == '\t' }

  /** The text without its blanks, wherever they stand. */
  function Squeeze(s: string): string {
    if s == "" then "" else (if IsBlank(s[0]) then "" else [s[0]]) + Squeeze(s[1..])
  }

  predicate AllDigits(s: string) {
    forall i | 0 <= i < |s| :: IsDigit(s[i])
  }

  /** The number at the start of a text. Blanks are ignored, even between digits; a text that is
      not blank and does not start with a digit is no number, which is reported as -1. */
  function Uint(s: string): int {
    var t := Squeeze(s);
    var n := Span(t, IsDigit);
    if n == 0 && t != "" then -1 else Decimal(t[..n])
  }

  /** An occurrence found lies within the text. */
  lemma FoundInside(b: string, needle: string)
    ensures Find(b, needle).Some? ==> Find(b, needle).value + |needle| <= |b|
  {
    FindIsLeftmost(b, needle);
  }

  function HeaderDone(c: Ctl, b: string, maxLen: int): Turn {
    FoundInside(b, CONTENT_LENGTH);
    FoundInside(b, END_OF_HEADER);
    match Find(b, CONTENT_LENGTH)
    case None => Turn(c, maxLen, Reject)
    case Some(l) =>
      var length := Uint(b[l + |CONTENT_LENGTH|..]);
      if length < 0 then Turn(c, maxLen, Continue) else
      var c1 := c.(contentLength := length);
      match Find(b, END_OF_HEADER)
      case None => Turn(c1.(phase := c1.phase + 1), maxLen, Continue)
      case Some(k) =>
        var headerSize := k + |END_OF_HEADER|;
        var overshot := |b| - headerSize;
        Turn(c1.(phase := LAST_PHASE), OptMin(length + headerSize - overshot, c.ogMaxLen), Continue)
  }

  function NextByte(c: Ctl, b: string): int {
    OptMin(|b| + INIT_BATCH, c.ogMaxLen)
  }

  function FirstLineTurn(c: Ctl, b: string): Turn {
    if Find(b, CRLF).None? then Turn(c, NextByte(c, b), Continue) else
    match ParseVersion(b)
    case Fail => Turn(c.(version := Http09.Code()), NextByte(c, b), Reject)
    case Parsed(v, _) =>
      Turn(c.(version := v.Code(), phase := c.phase + 1), if v.Http11? then NextByte(c, b) else c.ogMaxLen, Continue)
  }

  function HeaderTurn(c: Ctl, b: string, maxLen: int): Turn {
    if |b| < 4 || Find(b[|b| - 4..], END_OF_HEADER).None? then Turn(c, NextByte(c, b), Continue)
    else HeaderDone(c.(phase := c.phase + 1), b, maxLen)
  }

  function LateHeaderTurn(c: Ctl, b: string, maxLen: int): Turn {
    match Find(b, END_OF_HEADER)
    case None => Turn(c, maxLen, Reject)
    case Some(k) =>
      Turn(c.(phase := c.phase + 1), OptMin(c.contentLength + k + |END_OF_HEADER|, c.ogMaxLen), Continue)
  }

  /** The controller's reaction to having received `b` in all, when the current limit is `maxLen`. */
  function Control(c: Ctl, b: string, maxLen: int): Turn {
    if c.Key() == 0 then
      var c1 := c.(version := 0, phase := c.phase + 1, ogMaxLen := maxLen);
      Turn(c1, NextByte(c1, b), Continue)
    else if c.Key() == 1 then FirstLineTurn(c, b)
    else if c.Key() == 112 then HeaderTurn(c, b, maxLen)
    else if c.Key() == 113 then HeaderDone(c, b, maxLen)
    else if c.Key() == 114 then LateHeaderTurn(c, b, maxLen)
    else Turn(c, maxLen, Continue)
  }

  lemma {:induction false} SqueezeSnoc(s: string, c: char)
    ensures Squeeze(s + [c]) == Squeeze(s) + (if IsBlank(c) then "" else [c])
  {
    var last := if IsBlank(c) then "" else [c];
    if s == "" {
      assert s + [c] == [c] && [c][1..] == "";
      assert Squeeze([c]) == last + Squeeze("") && last + "" == last && "" + last == last;
    } else {
      var first := if IsBlank(s[0]) then "" else [s[0]];
      assert (s + [c])[1..] == s[1..] + [c] && (s + [c])[0] == s[0];
      SqueezeSnoc(s[1..], c);
      assert first + (Squeeze(s[1..]) + last) == first + Squeeze(s[1..]) + last;
    }
  }

  /** Squeezing a prefix gives a prefix of the squeezed text. */
  lemma {:induction false} SqueezePrefix(s: string, i: nat)
    requires i <= |s|
    ensures Squeeze(s[..i]) <= Squeeze(s)
    ensures i < |s| && !IsBlank(s[i]) ==> |Squeeze(s[..i])| < |Squeeze(s)| && Squeeze(s)[|Squeeze(s[..i])|] == s[i]
    decreases |s| - i
  {
    if i == |s| {
      assert s[..i] == s;
    } else {
      assert s[..i + 1] == s[..i] + [s[i]];
      SqueezeSnoc(s[..i], s[i]);
      SqueezePrefix(s, i + 1);
    }
  }

  lemma DecimalSnoc(s: string, c: char)
    ensures Decimal(s + [c]) == Decimal(s) * 10 + Digit(c)
  {
    assert (s + [c])[..|s|] == s;
  }

  lemma NothingIsZero()
    ensures Squeeze("") == "" && Decimal("") == 0
  {
  }

  /** The number in `buf[begin..end]`, and the character that ended a text that is no number. */
  method StrToUint(buf: array<char>, begin: nat, end: nat, terminatorIn: char) returns (out: int, terminator: char)
    requires begin <= end <= buf.Length
    ensures out == Uint(buf[begin..end])
    ensures out >= 0 ==> terminator == terminatorIn
  {
    hide Squeeze;
    hide Decimal;
    hide Span;
    NothingIsZero();
    ghost var s := buf[begin..end];
    ghost var t := Squeeze(s);
    assert s[..0] == "";
    out, terminator := 0, terminatorIn;
    var hasFoundLegal := false;
    var p := begin;
    while p < end
      invariant begin <= p <= end
      invariant AllDigits(Squeeze(s[..p - begin]))
      invariant out == Decimal(Squeeze(s[..p - begin]))
      invariant hasFoundLegal <==> Squeeze(s[..p - begin]) != ""
    {
      var c := buf[p];
      ghost var i := p - begin;
      ghost var done := Squeeze(s[..i]);
      assert c == s[i];
      assert s[..i + 1] == s[..i] + [c];
      SqueezeSnoc(s[..i], c);
      SqueezePrefix(s, i);
      if '0' <= c && c <= '9' {
        DecimalSnoc(done, c);
        out := out * 10 + Digit(c);
        hasFoundLegal := true;
      } else if c == ' ' || c == '\t' {
        assert done + "" == done;
      } else {
        assert t[..|done|] == done && t[|done|] == c;
        forall k | 0 <= k < |done| ensures IsDigit(t[k]) { assert t[k] == done[k]; }
        SpanIs(t, IsDigit, |done|);
        if !hasFoundLegal {
          return -1, c;
        }
        return;
      }
      p := p + 1;
    }
    assert s[..end - begin] == s;
    SpanIs(t, IsDigit, |t|);
    assert t[..|t|] == t;
  }

  /** Size of the header in the `n` bytes at `off`, or -1 when its end is not there. */
  method GetHeaderSize(buf: array<char>, off: nat, n: nat) returns (size: int)
    requires off + n <= buf.Length
    ensures match Find(buf[off..off + n], END_OF_HEADER)
            case None => size == -1
            case Some(k) => size == k + |END_OF_HEADER|
  {
    var eoh := StringUtils.FindAsciiSubstringCaseInsensitive(buf, off, n, END_OF_HEADER);
    FoundInside(buf[off..off + n], END_OF_HEADER);
    match eoh
    case Some(k) => size := k + |END_OF_HEADER|;
    case None => size := -1;
  }

  /** The state that lives across the calls of one receive. */
  class ControllerState {
    var ogMaxLen: int
    var contentLength: int
    var httpVersion: nat
    var phase: nat

    constructor ()
      ensures View() == ZEROED
    {
      ogMaxLen, contentLength, httpVersion, phase := 0, 0, 0, 0;
    }

    function View(): Ctl
      reads this
    {
      Ctl(ogMaxLen, contentLength, httpVersion, phase)
    }

    method CheckHeader(buf: array<char>, off: nat, n: nat, maxLenIn: int) returns (maxLen: int, action: Action)
      requires off + n <= buf.Length
      modifies this
      ensures Turn(View(), maxLen, action) == HeaderDone(old(View()), buf[off..off + n], maxLenIn)
    {
      hide Find;
      hide Uint;
      ghost var b := buf[off..off + n];
      maxLen, action := maxLenIn, Continue;
      var line := StringUtils.FindAsciiSubstringCaseInsensitive(buf, off, n, CONTENT_LENGTH);
      if line.None? {
        return maxLen, Reject;
      }
      FoundInside(b, CONTENT_LENGTH);
      FoundInside(b, END_OF_HEADER);
      var l := line.value + |CONTENT_LENGTH|;
      var length, terminator := StrToUint(buf, off + l, off + n, '\r');
      assert buf[off + l..off + n] == b[l..];
      if length >= 0 && terminator == '\r' {
        contentLength := length;
      } else {
        return;
      }
      var headerSize := GetHeaderSize(buf, off, n);
      if headerSize >= 0 {
        var overshot := n - headerSize;
        maxLen := OptMin(length + headerSize - overshot, ogMaxLen);
        phase := LAST_PHASE;
      } else {
        phase := phase + 1;
      }
    }

    method ReadVersion(buf: array<char>, off: nat, n: nat) returns (maxLen: int, action: Action)
      requires off + n <= buf.Length
      modifies this
      ensures Turn(View(), maxLen, action) == FirstLineTurn(old(View()), buf[off..off + n])
    {
      hide ParseVersion;
      hide Find;
      action := Continue;
      maxLen := OptMin(n + INIT_BATCH, ogMaxLen);
      var nextLine := StringUtils.FindAsciiSubstringCaseInsensitive(buf, off, n, CRLF);
      if nextLine.None? {
        return;
      }
      httpVersion := Http09.Code();
      var s := new Parsing.StringRef(buf, off, n);
      var err, v := Parsing.ParseHttpVersion(s);
      if err {
        return maxLen, Reject;
      }
      httpVersion := v.Code();
      phase := phase + 1;
      if httpVersion == Http09.Code() || httpVersion == Http10.Code() {
        maxLen := ogMaxLen;
      }
    }

    /** httpReceiveController on the `n` bytes of `buf` from `off` on. */
    method HttpReceiveController(buf: array<char>, off: nat, n: nat, maxLenIn: int) returns (maxLen: int, action: Action)
      requires off + n <= buf.Length
      modifies this
      ensures Turn(View(), maxLen, action) == Control(old(View()), buf[off..off + n], maxLenIn)
    {
      hide FirstLineTurn;
      hide HeaderDone;
      hide Find;
      ghost var b := buf[off..off + n];
      maxLen, action := maxLenIn, Continue;
      var key := httpVersion * 10 + phase;
      if key == 0 {
        httpVersion := 0;
        phase := phase + 1;
        ogMaxLen := maxLen;
        maxLen := OptMin(n + INIT_BATCH, ogMaxLen);
      } else if key == 1 {
        maxLen, action := ReadVersion(buf, off, n);
      } else if key == 112 {
        if n < |END_OF_HEADER| {
          maxLen := OptMin(n + INIT_BATCH, ogMaxLen);
          return;
        }
        var offset := n - INIT_BATCH - |END_OF_HEADER| + 1;
        assert buf[off + offset..off + offset + (n - offset)] == b[|b| - 4..];
        var size := GetHeaderSize(buf, off + offset, n - offset);
        if size < 0 {
          maxLen := OptMin(n + INIT_BATCH, ogMaxLen);
          return;
        }
        phase := phase + 1;
        maxLen, action := CheckHeader(buf, off, n, maxLen);
      } else if key == 113 {
        maxLen, action := CheckHeader(buf, off, n, maxLen);
      } else if key == 114 {
        var headerSize := GetHeaderSize(buf, off, n);
        if headerSize >= 0 {
          maxLen := OptMin(contentLength + headerSize, ogMaxLen);
          phase := phase + 1;
        } else {
          action := Reject;
        }
      }
    }
  }
}
