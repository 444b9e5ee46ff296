/** Text as the library sees it: a byte string whose bytes are only ever compared with ASCII
    characters. A byte is a `char` here, so every statement holds for all 256 bytes (and more). */
module Text {
  datatype Option<+T> = None | Some(value: T)

  const CRLF: string := "\r\n"
  const END_OF_HEADER: string := "\r\n\r\n"

  predicate IsLetter(c: char) {
    'A' <= c <= 'Z' || 'a' <= c <= 'z'
  }

  predicate IsDigit(c: char) {
    '0' <= c <= '9'
  }

  function ToLower(c: char): char {
    if 'A' <= c <= 'Z' then (c as int - 'A' as int + 'a' as int) as char else c
  }

  /** `needle` occurs in `hay` at index `i`, ignoring the case of ASCII letters. */
  predicate MatchesAt(hay: string, needle: string, i: nat) {
    i + |needle| <= |hay| && forall j | 0 <= j < |needle| :: ToLower(hay[i + j]) == ToLower(needle[j])
  }

  /** The same text, but for the case of its letters: upper and lower case are 32 apart. */
  predicate SameButCase(a: string, b: string) {
    && |a| == |b|
    && forall i | 0 <= i < |a| ::
         a[i] == b[i] || (IsLetter(a[i]) && IsLetter(b[i]) && (a[i] as int - b[i] as int == 32 || b[i] as int - a[i] as int == 32))
  }

  lemma SameLower(c: char, d: char)
    ensures ToLower(c) == ToLower(d) <==>
            c == d || (IsLetter(c) && IsLetter(d) && (c as int - d as int == 32 || d as int - c as int == 32))
  {
  }

  /** An occurrence of a text is that text in any case. */
  lemma MatchesMeansSame(hay: string, needle: string, i: nat)
    ensures MatchesAt(hay, needle, i) <==> i + |needle| <= |hay| && SameButCase(hay[i..i + |needle|], needle)
  {
    hide ToLower;
    if i + |needle| <= |hay| {
      var part := hay[i..i + |needle|];
      forall j | 0 <= j < |needle| ensures ToLower(hay[i + j]) == ToLower(needle[j]) <==> ToLower(part[j]) == ToLower(needle[j]) {
        assert part[j] == hay[i + j];
      }
      forall j | 0 <= j < |needle| { SameLower(part[j], needle[j]); }
      if SameButCase(part, needle) {
        forall j | 0 <= j < |needle| ensures ToLower(hay[i + j]) == ToLower(needle[j]) { SameLower(part[j], needle[j]); }
      }
      if MatchesAt(hay, needle, i) {
        forall j | 0 <= j < |needle|
          ensures part[j] == needle[j] || (IsLetter(part[j]) && IsLetter(needle[j]) &&
                  (part[j] as int - needle[j] as int == 32 || needle[j] as int - part[j] as int == 32))
        {
          assert ToLower(hay[i + j]) == ToLower(needle[j]);
          SameLower(part[j], needle[j]);
        }
      }
    }
  }

  function FindFrom(hay: string, needle: string, i: nat): Option<nat>
    decreases |hay| - i
  {
    if i + |needle| > |hay| then None
    else if MatchesAt(hay, needle, i) then Some(i)
    else FindFrom(hay, needle, i + 1)
  }

  /** Index of the leftmost occurrence of `needle`, if there is one. */
  function Find(hay: string, needle: string): Option<nat> {
    FindFrom(hay, needle, 0)
  }

  lemma {:induction false} FindFromSpec(hay: string, needle: string, i: nat)
    ensures match FindFrom(hay, needle, i)
            case None => forall k | i <= k :: !MatchesAt(hay, needle, k)
            case Some(r) => i <= r && MatchesAt(hay, needle, r) && forall k | i <= k < r :: !MatchesAt(hay, needle, k)
    decreases |hay| - i
  {
    if i + |needle| <= |hay| && !MatchesAt(hay, needle, i) {
      FindFromSpec(hay, needle, i + 1);
    }
  }

  /** The result of the search is the leftmost occurrence, and there is a result whenever there is an occurrence. */
  lemma FindIsLeftmost(hay: string, needle: string)
    ensures match Find(hay, needle)
            case None => forall k: nat :: !MatchesAt(hay, needle, k)
            case Some(r) => MatchesAt(hay, needle, r) && forall k: nat | k < r :: !MatchesAt(hay, needle, k)
  {
    FindFromSpec(hay, needle, 0);
  }

  /** The leftmost occurrence is unique, so it can be recognised without running the search. */
  lemma FindIs(hay: string, needle: string, i: nat)
    requires MatchesAt(hay, needle, i)
    requires forall k: nat | k < i :: !MatchesAt(hay, needle, k)
    ensures Find(hay, needle) == Some(i)
  {
    FindIsLeftmost(hay, needle);
    var r := Find(hay, needle);
    assert r.Some? && !(r.value < i) && !(i < r.value);
  }

  /** An occurrence found in a prefix is the one found in the whole text. */
  lemma FindInPrefix(s: string, n: nat, needle: string)
    requires n <= |s|
    ensures Find(s[..n], needle).Some? ==> Find(s, needle) == Find(s[..n], needle)
    ensures Find(s, needle).Some? && Find(s, needle).value + |needle| <= n ==> Find(s[..n], needle) == Find(s, needle)
  {
    FindIsLeftmost(s, needle);
    FindIsLeftmost(s[..n], needle);
    forall k: nat ensures MatchesAt(s[..n], needle, k) <==> MatchesAt(s, needle, k) && k + |needle| <= n {}
    if Find(s[..n], needle).Some? {
      var i := Find(s[..n], needle).value;
      forall k: nat | k < i ensures !MatchesAt(s, needle, k) { assert !MatchesAt(s[..n], needle, k); }
      FindIs(s, needle, i);
    }
    if Find(s, needle).Some? && Find(s, needle).value + |needle| <= n {
      FindIs(s[..n], needle, Find(s, needle).value);
    }
  }

  /** A search passes over a prefix in which no occurrence starts. */
  lemma FindPast(a: string, b: string, needle: string)
    requires forall i: nat | i < |a| :: !MatchesAt(a + b, needle, i)
    ensures Find(a + b, needle) == match Find(b, needle) case None => None case Some(k) => Some(|a| + k)
  {
    FindIsLeftmost(a + b, needle);
    FindIsLeftmost(b, needle);
    forall k: nat ensures MatchesAt(b, needle, k) <==> MatchesAt(a + b, needle, |a| + k) {}
    match Find(b, needle) {
      case None =>
        forall k: nat ensures !MatchesAt(a + b, needle, k) {
          if k >= |a| { assert !MatchesAt(b, needle, k - |a|); }
        }
      case Some(r) =>
        forall k: nat | k < |a| + r ensures !MatchesAt(a + b, needle, k) {
          if k >= |a| { assert !MatchesAt(b, needle, k - |a|); }
        }
        FindIs(a + b, needle, |a| + r);
    }
  }

  lemma CharMatches(s: string, needle: string, i: nat, j: nat)
    requires j < |needle| && i + j < |s|
    ensures MatchesAt(s, needle, i) ==> ToLower(s[i + j]) == ToLower(needle[j])
  {
  }

  /** In particular over a prefix without the character with which the needle begins. */
  lemma FindSkip(a: string, b: string, needle: string)
    requires needle != "" && forall i | 0 <= i < |a| :: ToLower(a[i]) != ToLower(needle[0])
    ensures Find(a + b, needle) == match Find(b, needle) case None => None case Some(k) => Some(|a| + k)
  {
    hide Find;
    forall i: nat | i < |a| ensures !MatchesAt(a + b, needle, i) {
      CharMatches(a + b, needle, i, 0);
    }
    FindPast(a, b, needle);
  }

  /** A line end, CR LF, starts at index `i`. */
  predicate IsLineEnd(s: string, i: nat) {
    i + 1 < |s| && s[i] == '\r' && s[i + 1] == '\n'
  }

  function LineEndFrom(s: string, i: nat): (r: Option<nat>)
    ensures r.Some? ==> i <= r.value && IsLineEnd(s, r.value) && forall k | i <= k < r.value :: !IsLineEnd(s, k)
    ensures r.None? ==> forall k | i <= k :: !IsLineEnd(s, k)
    decreases |s| - i
  {
    if i + 1 >= |s| then None else if IsLineEnd(s, i) then Some(i) else LineEndFrom(s, i + 1)
  }

  /** Index of the first line end, if there is one. */
  function LineEnd(s: string): (r: Option<nat>)
    ensures r.Some? ==> IsLineEnd(s, r.value) && forall k: nat | k < r.value :: !IsLineEnd(s, k)
    ensures r.None? ==> forall k: nat :: !IsLineEnd(s, k)
  {
    LineEndFrom(s, 0)
  }

  lemma LineEndIs(s: string, i: nat)
    requires IsLineEnd(s, i) && forall k: nat | k < i :: !IsLineEnd(s, k)
    ensures LineEnd(s) == Some(i)
  {
    var r := LineEnd(s);
    assert r.Some? && !(r.value < i) && !(i < r.value);
  }

  /** Dropping a prefix in which no line end starts. */
  lemma LineEndInSuffix(s: string, n: nat)
    requires n <= |s| && forall k: nat | k < n :: !IsLineEnd(s, k)
    ensures LineEnd(s) == match LineEnd(s[n..]) case None => None case Some(e) => Some(n + e)
  {
    match LineEnd(s[n..]) {
      case None =>
        forall k: nat ensures !IsLineEnd(s, k) {
          if k >= n { assert !IsLineEnd(s[n..], k - n); }
        }
      case Some(e) =>
        forall k: nat | k < n + e ensures !IsLineEnd(s, k) {
          if k >= n { assert !IsLineEnd(s[n..], k - n); }
        }
        LineEndIs(s, n + e);
    }
  }

  lemma MatchesLineEnd(s: string, k: nat)
    ensures MatchesAt(s, CRLF, k) <==> IsLineEnd(s, k)
  {
    if k + 2 <= |s| {
      assert MatchesAt(s, CRLF, k) ==> ToLower(s[k + 0]) == ToLower(CRLF[0]) && ToLower(s[k + 1]) == ToLower(CRLF[1]);
    }
  }

  /** The case-insensitive search finds exactly the line ends when it looks for CR LF. */
  lemma FindIsLineEnd(s: string)
    ensures Find(s, CRLF) == LineEnd(s)
  {
    hide MatchesAt;
    forall k: nat ensures MatchesAt(s, CRLF, k) <==> IsLineEnd(s, k) {
      MatchesLineEnd(s, k);
    }
    FindIsLeftmost(s, CRLF);
    if LineEnd(s).Some? { FindIs(s, CRLF, LineEnd(s).value); }
  }

  /** The end of a header is two line ends in a row. */
  lemma MatchesTwoLineEnds(s: string, k: nat)
    ensures MatchesAt(s, END_OF_HEADER, k) <==> IsLineEnd(s, k) && IsLineEnd(s, k + 2)
  {
    if k + 4 <= |s| {
      assert END_OF_HEADER[0] == END_OF_HEADER[2] == '\r' && END_OF_HEADER[1] == END_OF_HEADER[3] == '\n';
      if MatchesAt(s, END_OF_HEADER, k) {
        assert ToLower(s[k + 0]) == ToLower(END_OF_HEADER[0]) && ToLower(s[k + 1]) == ToLower(END_OF_HEADER[1]);
        assert ToLower(s[k + 2]) == ToLower(END_OF_HEADER[2]) && ToLower(s[k + 3]) == ToLower(END_OF_HEADER[3]);
      }
    }
  }

  /** Length of the longest prefix of `s` whose characters all satisfy `p`. */
  function Span(s: string, p: char -> bool): (n: nat)
    ensures n <= |s| && (forall i | 0 <= i < n :: p(s[i])) && (n < |s| ==> !p(s[n]))
  {
    if s == "" || !p(s[0]) then 0 else 1 + Span(s[1..], p)
  }

  lemma SpanIs(s: string, p: char -> bool, n: nat)
    requires n <= |s| && (forall i | 0 <= i < n :: p(s[i])) && (n < |s| ==> !p(s[n]))
    ensures Span(s, p) == n
  {
    var m := Span(s, p);
    assert !(m < n) && !(n < m);
  }
}
