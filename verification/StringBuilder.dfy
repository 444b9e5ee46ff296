/** lib/string_builder.c: a growing character buffer. */
module StringBuilders {
  function Pow2(k: nat): (r: nat)
    ensures r >= 1
  {
    if k == 0 then 1 else 2 * Pow2(k - 1)
  }

  /** Number of significant bits: the word size minus the count of leading zeros. */
  function BitLength(x: nat): nat {
    if x == 0 then 0 else 1 + BitLength(x / 2)
  }

  /** The capacity chosen for a requested size. */
  function GrownCap(minNewSize: nat): nat
    requires minNewSize >= 1
  {
    var p := Pow2(BitLength(minNewSize - 1));
    if 64 < p then p else 64
  }

  lemma {:induction false} Pow2Monotone(a: nat, b: nat)
    requires a <= b
    ensures Pow2(a) <= Pow2(b)
    ensures a < b ==> 2 * Pow2(a) <= Pow2(b)
  {
    if a < b {
      Pow2Monotone(a, b - 1);
    }
  }

  /** Doubling `x` brackets it between consecutive powers of two. */
  lemma {:induction false} BitLengthBrackets(x: nat)
    ensures x < Pow2(BitLength(x))
    ensures x > 0 ==> BitLength(x) > 0 && Pow2(BitLength(x) - 1) <= x
  {
    if x > 0 {
      BitLengthBrackets(x / 2);
      if x / 2 == 0 {
        assert x == 1 && BitLength(1) == 1 + BitLength(0);
      }
    }
  }

  /** The new capacity is the larger of 64 and the least power of two that holds the requested size. */
  lemma GrownCapIsLeastPowerOfTwo(minNewSize: nat, k: nat)
    requires minNewSize >= 1
    ensures minNewSize <= GrownCap(minNewSize)
    ensures exists j: nat :: j >= 6 && GrownCap(minNewSize) == Pow2(j)
    ensures Pow2(k) >= minNewSize && k >= 6 ==> GrownCap(minNewSize) <= Pow2(k)
  {
    var x := minNewSize - 1;
    var b := BitLength(x);
    BitLengthBrackets(x);
    assert Pow2(6) == 64;
    if b >= 6 {
      Pow2Monotone(6, b);
      assert GrownCap(minNewSize) == Pow2(b);
    } else {
      Pow2Monotone(b, 6);
      assert GrownCap(minNewSize) == Pow2(6);
    }
    if Pow2(k) >= minNewSize && k >= 6 {
      Pow2Monotone(6, k);
      if k < b { Pow2Monotone(k, b - 1); } else { Pow2Monotone(b, k); }
    }
  }

  /** Capacity after making room for `newLen` bytes in total. */
  function CapFor(cap: nat, newLen: nat): nat {
    if cap < newLen then GrownCap(newLen) else cap
  }

  /** Bytes moved by reallocations while appending pieces of the given lengths to a buffer of
      length `len` and capacity `cap`: each growth moves the whole old block. */
  function Copied(pieces: seq<nat>, len: nat, cap: nat): nat
    decreases |pieces|
  {
    if pieces == [] then 0
    else
      var newLen := len + pieces[0];
      (if cap < newLen then cap else 0) + Copied(pieces[1..], newLen, CapFor(cap, newLen))
  }

  function Total(pieces: seq<nat>): nat {
    if pieces == [] then 0 else pieces[0] + Total(pieces[1..])
  }

  ghost predicate PowerCap(cap: nat) {
    cap == 0 || exists j: nat :: cap == Pow2(j)
  }

  /** A growth at least doubles the capacity. */
  lemma GrowthDoubles(cap: nat, newLen: nat)
    requires PowerCap(cap) && cap < newLen
    ensures PowerCap(GrownCap(newLen)) && 2 * cap <= GrownCap(newLen) && newLen <= GrownCap(newLen)
  {
    GrownCapIsLeastPowerOfTwo(newLen, 6);
    var j: nat :| GrownCap(newLen) == Pow2(j);
    if cap != 0 {
      var i: nat :| cap == Pow2(i);
      if j <= i { Pow2Monotone(j, i); }
      Pow2Monotone(i, j);
    }
  }

  lemma {:induction false} CopiedAmortised(pieces: seq<nat>, len: nat, cap: nat, spent: nat)
    requires PowerCap(cap) && len <= cap
    requires spent <= cap && spent <= 2 * len
    ensures spent + Copied(pieces, len, cap) <= 2 * (len + Total(pieces))
    decreases |pieces|
  {
    if pieces != [] {
      var newLen := len + pieces[0];
      if cap < newLen {
        GrowthDoubles(cap, newLen);
        CopiedAmortised(pieces[1..], newLen, GrownCap(newLen), spent + cap);
      } else {
        CopiedAmortised(pieces[1..], newLen, cap, spent);
      }
    }
  }

  /** Over any sequence of appends to an empty builder, reallocation moves at most twice as many
      bytes as the final text has. */
  lemma BuilderGrowthIsLinear(pieces: seq<nat>)
    ensures Copied(pieces, 0, 0) <= 2 * Total(pieces)
  {
    CopiedAmortised(pieces, 0, 0, 0);
  }

  class StringBuilder {
    var data: array<char>
    var len: nat
    var cap: nat

    ghost predicate Valid()
      reads this
    {
      data.Length == cap && len <= cap
    }

    ghost function Contents(): string
      reads this, data
      requires Valid()
    {
      data[..len]
    }

    constructor (cap: nat)
      ensures Valid() && fresh(data) && Contents() == "" && this.cap == cap && len == 0
    {
      data := new char[cap];
      this.cap := cap;
      len := 0;
    }

    /** Moves the contents to a larger block. */
    method ExpandBuf(minNewSize: nat)
      requires Valid() && minNewSize > cap
      modifies this
      ensures Valid() && fresh(data) && len == old(len)
      ensures cap == GrownCap(minNewSize) && minNewSize <= cap
      ensures Contents() == old(Contents())
    {
      GrownCapIsLeastPowerOfTwo(minNewSize, 6);
      var newCap := GrownCap(minNewSize);
      var buf := new char[newCap];
      var i := 0;
      while i < len
        invariant 0 <= i <= len
        invariant buf[..i] == data[..i]
        modifies buf
      {
        buf[i] := data[i];
        i := i + 1;
      }
      data := buf;
      cap := newCap;
    }

    method Append(text: string)
      requires Valid()
      modifies this, data
      ensures Valid() && (data == old(data) || fresh(data))
      ensures Contents() == old(Contents()) + text
      ensures cap == CapFor(old(cap), old(len) + |text|)
    {
      var newLen := len + |text|;
      if cap < newLen {
        ExpandBuf(newLen);
      }
      var i := 0;
      while i < |text|
        invariant 0 <= i <= |text|
        invariant data[..len + i] == old(Contents()) + text[..i]
        modifies data
      {
        data[len + i] := text[i];
        assert data[..len + i] == old(Contents()) + text[..i];
        assert data[..len + (i + 1)] == data[..len + i] + [text[i]];
        i := i + 1;
      }
      assert text[..|text|] == text;
      len := newLen;
    }

    /** A copy of the contents in memory of its own, followed by a zero byte. */
    method Build() returns (out: array<char>)
      requires Valid()
      ensures fresh(out) && out[..] == Contents() + ['\0']
    {
      out := new char[len + 1];
      var i := 0;
      while i < len
        invariant 0 <= i <= len
        invariant out[..i] == data[..i]
      {
        out[i] := data[i];
        i := i + 1;
      }
      out[len] := '\0';
      assert out[..] == out[..len] + ['\0'];
    }

    /** Hands the contents over and leaves the builder empty. */
    method BuildAndDestroy() returns (out: array<char>)
      requires Valid()
      modifies this
      ensures fresh(out) && out[..] == old(Contents()) + ['\0']
      ensures Valid() && fresh(data) && Contents() == "" && cap == 0
    {
      out := Build();
      data := new char[0];
      cap := 0;
      len := 0;
    }
  }
}
