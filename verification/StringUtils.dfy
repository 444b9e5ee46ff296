/** lib/string_utils.c: leftmost case-insensitive substring search by two nested index loops. */
module StringUtils {
  import opened Text

  /** Searches the `n` bytes of `buf` that start at `off`; the result is an index relative to `off`. */
  method FindAsciiSubstringCaseInsensitive(buf: array<char>, off: nat, n: nat, needle: string) returns (r: Option<nat>)
    requires off + n <= buf.Length
    ensures r == Find(buf[off..off + n], needle)
  {
    ghost var hay := buf[off..off + n];
    if |needle| == 0 {
      FindIs(hay, needle, 0);
      return Some(0);
    }
    if n < |needle| {
      FindIsLeftmost(hay, needle);
      return None;
    }
    var i := 0;
    while i <= n - |needle|
      invariant 0 <= i <= n - |needle| + 1
      invariant forall k: nat | k < i :: !MatchesAt(hay, needle, k)
    {
      var j := 0;
      while j < |needle| && ToLower(buf[off + i + j]) == ToLower(needle[j])
        invariant 0 <= j <= |needle|
        invariant forall l | 0 <= l < j :: ToLower(hay[i + l]) == ToLower(needle[l])
      {
        assert hay[i + j] == buf[off + i + j];
        j := j + 1;
      }
      if j == |needle| {
        FindIs(hay, needle, i);
        return Some(i);
      }
      assert !MatchesAt(hay, needle, i) by {
        assert hay[i + j] == buf[off + i + j];
        assert ToLower(hay[i + j]) != ToLower(needle[j]);
      }
      i := i + 1;
    }
    FindIsLeftmost(hay, needle);
    r := None;
  }
}
