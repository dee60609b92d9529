/** Byte offsets into UTF-8 text. Rust strings are indexed by byte offset while
    the model's strings are sequences of Unicode scalar values, so a byte offset
    `i` into `s` is meaningful when it is a char boundary: the encoded length of
    some prefix `s[..k]`. */
module Utf8 {

  /** The number of bytes UTF-8 uses for `c`. */
  function CharWidth(c: char): (w: nat)
    ensures 1 <= w <= 4
  {
    if c as int < 0x80 then 1
    else if c as int < 0x800 then 2
    else if c as int < 0x10000 then 3
    else 4
  }

  /** `str::len()`: the encoded length in bytes. */
  function ByteLen(s: string): nat
  {
    if s == [] then 0 else CharWidth(s[0]) + ByteLen(s[1..])
  }

  lemma {:induction false} ByteLenConcat(a: string, b: string)
    ensures ByteLen(a + b) == ByteLen(a) + ByteLen(b)
    decreases |a|
  {
    if a != [] {
      assert (a + b)[1..] == a[1..] + b;
      ByteLenConcat(a[1..], b);
    } else {
      assert a + b == b;
    }
  }

  /** Encoded length grows strictly with every char: a longer prefix has more bytes. */
  lemma {:induction false} PrefixLenStrict(s: string, k: nat, m: nat)
    requires k < m <= |s|
    ensures ByteLen(s[..k]) < ByteLen(s[..m])
  {
    assert s[..m] == s[..k] + s[k..m];
    ByteLenConcat(s[..k], s[k..m]);
    assert s[k..m] == [s[k]] + s[k + 1..m];
  }

  lemma ByteLenBound(s: string, k: nat)
    requires k <= |s|
    ensures ByteLen(s[..k]) <= ByteLen(s)
  {
    assert s == s[..k] + s[k..];
    ByteLenConcat(s[..k], s[k..]);
  }

  /** `str::is_char_boundary(i)`. */
  predicate IsCharBoundary(s: string, i: nat)
  {
    i == 0 || (s != [] && i >= CharWidth(s[0]) && IsCharBoundary(s[1..], i - CharWidth(s[0])))
  }

  /** The char index of a boundary byte offset. */
  function CharIndex(s: string, i: nat): (k: nat)
    requires IsCharBoundary(s, i)
    ensures k <= |s| && ByteLen(s[..k]) == i
  {
    if i == 0 then
      assert s[..0] == [];
      0
    else
      var k := CharIndex(s[1..], i - CharWidth(s[0]));
      assert s[..k + 1] == [s[0]] + s[1..][..k];
      k + 1
  }

  /** Every prefix ends on a boundary. */
  lemma {:induction false} BoundaryAt(s: string, k: nat)
    requires k <= |s|
    ensures IsCharBoundary(s, ByteLen(s[..k]))
  {
    if k > 0 {
      assert s[..k] == [s[0]] + s[1..][..k - 1];
      assert s[..k][1..] == s[1..][..k - 1];
      BoundaryAt(s[1..], k - 1);
    } else {
      assert s[..k] == [];
    }
  }

  /** The boundaries are exactly the prefix lengths, each for one prefix. */
  lemma CharIndexOf(s: string, k: nat)
    requires k <= |s|
    ensures IsCharBoundary(s, ByteLen(s[..k]))
    ensures CharIndex(s, ByteLen(s[..k])) == k
  {
    BoundaryAt(s, k);
    var k' := CharIndex(s, ByteLen(s[..k]));
    if k' < k { PrefixLenStrict(s, k', k); }
    if k < k' { PrefixLenStrict(s, k, k'); }
  }

  lemma BoundaryBound(s: string, i: nat)
    requires IsCharBoundary(s, i)
    ensures i <= ByteLen(s)
  {
    ByteLenBound(s, CharIndex(s, i));
  }

  /** The end of the text is a boundary. */
  lemma EndIsBoundary(s: string)
    ensures IsCharBoundary(s, ByteLen(s)) && CharIndex(s, ByteLen(s)) == |s|
  {
    assert s[..|s|] == s;
    CharIndexOf(s, |s|);
  }

  /** `&s[i..j]` for byte offsets on boundaries. */
  function Slice(s: string, i: nat, j: nat): (r: string)
    requires IsCharBoundary(s, i) && IsCharBoundary(s, j) && i <= j
    ensures ByteLen(r) == j - i
  {
    var a, b := CharIndex(s, i), CharIndex(s, j);
    if b < a then
      PrefixLenStrict(s, b, a);
      []
    else
      assert s[..b] == s[..a] + s[a..b];
      ByteLenConcat(s[..a], s[a..b]);
      s[a..b]
  }

  /** The boundary just before a non-zero boundary is one char back, and no
      byte strictly between the two is a boundary. */
  lemma PreviousBoundary(s: string, i: nat)
    requires IsCharBoundary(s, i) && i > 0
    ensures CharIndex(s, i) > 0
    ensures var p := ByteLen(s[..CharIndex(s, i) - 1]);
            p < i && IsCharBoundary(s, p) && CharIndex(s, p) == CharIndex(s, i) - 1
            && forall j | p < j < i :: !IsCharBoundary(s, j)
  {
    var k := CharIndex(s, i);
    var p := ByteLen(s[..k - 1]);
    PrefixLenStrict(s, k - 1, k);
    CharIndexOf(s, k - 1);
    forall j | p < j < i ensures !IsCharBoundary(s, j) {
      if IsCharBoundary(s, j) {
        var m := CharIndex(s, j);
        if m <= k - 1 {
          if m < k - 1 { PrefixLenStrict(s, m, k - 1); }
        } else if m >= k {
          if m > k { PrefixLenStrict(s, k, m); }
        }
      }
    }
  }

  /** A boundary before the end of the text lies strictly inside it. */
  lemma InteriorBoundary(s: string, i: nat)
    requires IsCharBoundary(s, i) && CharIndex(s, i) < |s|
    ensures i < ByteLen(s)
  {
    assert s[..|s|] == s;
    PrefixLenStrict(s, CharIndex(s, i), |s|);
  }

  /** Appending text keeps every boundary of the front part, at the same char index. */
  lemma PrefixBoundary(x: string, y: string, i: nat)
    requires IsCharBoundary(x, i)
    ensures IsCharBoundary(x + y, i) && CharIndex(x + y, i) == CharIndex(x, i)
  {
    var k := CharIndex(x, i);
    assert (x + y)[..k] == x[..k];
    CharIndexOf(x + y, k);
  }

  /** Byte offsets of char positions slice out exactly those chars. */
  lemma SliceChars(s: string, a: nat, b: nat)
    requires a <= b <= |s|
    ensures IsCharBoundary(s, ByteLen(s[..a])) && IsCharBoundary(s, ByteLen(s[..b]))
    ensures ByteLen(s[..a]) <= ByteLen(s[..b])
    ensures Slice(s, ByteLen(s[..a]), ByteLen(s[..b])) == s[a..b]
  {
    CharIndexOf(s, a);
    CharIndexOf(s, b);
    if a < b { PrefixLenStrict(s, a, b); }
  }

  /** A slice inside the front part of a concatenation ignores the rest. */
  lemma SlicePrefix(x: string, y: string, i: nat, j: nat)
    requires IsCharBoundary(x, i) && IsCharBoundary(x, j) && i <= j
    ensures IsCharBoundary(x + y, i) && IsCharBoundary(x + y, j)
    ensures Slice(x + y, i, j) == Slice(x, i, j)
  {
    PrefixBoundary(x, y, i);
    PrefixBoundary(x, y, j);
    var a, b := CharIndex(x, i), CharIndex(x, j);
    if b < a { PrefixLenStrict(x, b, a); }
    assert (x + y)[a..b] == x[a..b];
  }

  /** A shorter suffix has fewer bytes. */
  lemma SuffixLenStrict(s: string, k: nat, m: nat)
    requires k < m <= |s|
    ensures ByteLen(s[m..]) < ByteLen(s[k..])
  {
    assert s[k..] == s[k..m] + s[m..];
    ByteLenConcat(s[k..m], s[m..]);
  }

  /** Every non-empty text has at least one byte. */
  lemma NonEmptyLen(s: string)
    requires s != []
    ensures ByteLen(s) > 0
  {
  }

  /** `&s[i..]` for a boundary `i`. */
  function SliceFrom(s: string, i: nat): (r: string)
    requires IsCharBoundary(s, i)
    ensures i <= ByteLen(s) && ByteLen(r) == ByteLen(s) - i
    ensures r == s[CharIndex(s, i)..]
  {
    EndIsBoundary(s);
    BoundaryBound(s, i);
    Slice(s, i, ByteLen(s))
  }

  /** `&s[..j]` for a boundary `j`. */
  function SliceTo(s: string, j: nat): (r: string)
    requires IsCharBoundary(s, j)
    ensures ByteLen(r) == j
    ensures r == s[..CharIndex(s, j)]
  {
    Slice(s, 0, j)
  }

  /** Boundaries in order have char indices in order. */
  lemma IndexMonotone(s: string, i: nat, j: nat)
    requires IsCharBoundary(s, i) && IsCharBoundary(s, j) && i <= j
    ensures CharIndex(s, i) <= CharIndex(s, j)
    ensures Slice(s, i, j) == s[CharIndex(s, i)..CharIndex(s, j)]
  {
    if CharIndex(s, j) < CharIndex(s, i) {
      PrefixLenStrict(s, CharIndex(s, j), CharIndex(s, i));
    }
  }

  /** The bytes before char `a + k` of `s`: those before `a`, then those
      of the first `k` chars of `s[a..b]`. */
  lemma ShiftedBoundary(s: string, a: nat, b: nat, k: nat)
    requires a <= b <= |s| && k <= b - a
    ensures ByteLen(s[..a + k]) == ByteLen(s[..a]) + ByteLen(s[a..b][..k])
  {
    assert s[..a + k] == s[..a] + s[a..b][..k];
    ByteLenConcat(s[..a], s[a..b][..k]);
  }

  /** Byte offsets into `s[a..b]`, shifted by the `p` bytes before `a`,
      slice the same text out of `s`. */
  lemma ShiftedSlice(s: string, sub: string, a: nat, b: nat, p: nat, i: nat, j: nat, u: nat, v: nat)
    requires a <= b <= |s| && sub == s[a..b] && ByteLen(s[..a]) == p
    requires IsCharBoundary(sub, i) && IsCharBoundary(sub, j) && i <= j
    requires u == p + i && v == p + j
    ensures IsCharBoundary(s, u) && IsCharBoundary(s, v)
    ensures Slice(s, u, v) == Slice(sub, i, j)
  {
    var ci, cj := CharIndex(sub, i), CharIndex(sub, j);
    assert ci <= cj <= b - a && Slice(sub, i, j) == sub[ci..cj] by {
      IndexMonotone(sub, i, j);
    }
    var x, y := a + ci, a + cj;
    assert ByteLen(s[..x]) == u by { ShiftedBoundary(s, a, b, ci); }
    assert ByteLen(s[..y]) == v by { ShiftedBoundary(s, a, b, cj); }
    assert sub[ci..cj] == s[x..y] by { SubSlice(s, a, b, ci, cj); }
    SliceAt(s, u, v, x, y);
    assert Slice(s, u, v) == sub[ci..cj];
    assert Slice(s, u, v) == Slice(sub, i, j);
  }

  /** A slice of a slice is a slice of the whole, at offsets shifted by the
      outer slice's start. */
  lemma SliceOfSlice(s: string, p: nat, q: nat, i: nat, j: nat, u: nat, v: nat)
    requires IsCharBoundary(s, p) && IsCharBoundary(s, q) && p <= q
    requires IsCharBoundary(Slice(s, p, q), i) && IsCharBoundary(Slice(s, p, q), j) && i <= j
    requires u == p + i && v == p + j
    ensures IsCharBoundary(s, u) && IsCharBoundary(s, v) && v <= q
    ensures Slice(s, u, v) == Slice(Slice(s, p, q), i, j)
  {
    var sub := Slice(s, p, q);
    IndexMonotone(s, p, q);
    BoundaryBound(sub, j);
    ShiftedSlice(s, sub, CharIndex(s, p), CharIndex(s, q), p, i, j, u, v);
  }

  lemma SubSlice(s: string, a: nat, b: nat, x: nat, y: nat)
    requires a <= b <= |s| && x <= y <= b - a
    ensures s[a..b][x..y] == s[a + x..a + y]
  {
    forall k | 0 <= k < y - x
      ensures s[a..b][x..y][k] == s[a + x..a + y][k]
    {
    }
  }

  lemma SliceAt(s: string, i: nat, j: nat, x: nat, y: nat)
    requires x <= y <= |s| && ByteLen(s[..x]) == i && ByteLen(s[..y]) == j
    ensures IsCharBoundary(s, i) && IsCharBoundary(s, j) && i <= j && Slice(s, i, j) == s[x..y]
  {
    SliceChars(s, x, y);
  }
}
