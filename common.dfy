/** Shared vocabulary: optional values, the application's error type
    (src/lib.rs), and the small string and list routines that the Rust
    standard library provides to the source (`split`, `join`, `trim`,
    `contains`-guarded pushes). */
module Common {

  datatype Option<+T> = None | Some(value: T)

  /** The two error shapes of src/lib.rs, plus `Exhausted`, which the model
      returns when a walk that the source runs without a bound runs out of fuel. */
  datatype Error =
    | AppError(msg: string)
    | Status(code: nat, msg: string)
    | Exhausted

  datatype Result<+T> = Ok(value: T) | Err(error: Error) {
    predicate IsFailure() { Err? }

    function PropagateFailure<U>(): Result<U>
      requires Err?
    {
      Err(error)
    }

    function Extract(): T
      requires Ok?
    {
      value
    }
  }

  const BAD_REQUEST: nat := 400
  const NOT_FOUND: nat := 404

  /** `check(ok, msg)`: a 400 status error unless `ok`. */
  function Check(ok: bool, msg: string): (r: Result<()>)
    ensures r.Ok? <==> ok
    ensures !ok ==> r == Err(Status(BAD_REQUEST, msg))
  {
    if ok then Ok(()) else Err(Status(BAD_REQUEST, msg))
  }

  // ---------------------------------------------------------------------
  // Lists

  predicate NoDup<T(==)>(s: seq<T>) {
    forall i, j | 0 <= i < j < |s| :: s[i] != s[j]
  }

  /** The loop `for x in xs { if !acc.contains(x) { acc.push(x) } }`. */
  function AppendAbsent<T(==)>(acc: seq<T>, xs: seq<T>): seq<T>
    decreases |xs|
  {
    if xs == [] then acc
    else AppendAbsent(if xs[0] in acc then acc else acc + [xs[0]], xs[1..])
  }

  /** Appending only absent items keeps the old list as a prefix, adds exactly
      the new items, adds nothing twice and keeps a duplicate-free list so. */
  lemma {:induction false} AppendAbsentSpec<T>(acc: seq<T>, xs: seq<T>)
    ensures acc <= AppendAbsent(acc, xs)
    ensures forall x :: x in AppendAbsent(acc, xs) <==> x in acc || x in xs
    ensures forall k | |acc| <= k < |AppendAbsent(acc, xs)| ::
              AppendAbsent(acc, xs)[k] !in acc
    ensures NoDup(acc) ==> NoDup(AppendAbsent(acc, xs))
    decreases |xs|
  {
    if xs != [] {
      var acc' := if xs[0] in acc then acc else acc + [xs[0]];
      AppendAbsentSpec(acc', xs[1..]);
      assert xs == [xs[0]] + xs[1..];
      var r := AppendAbsent(acc', xs[1..]);
      forall k | |acc| <= k < |r| ensures r[k] !in acc {
        if k < |acc'| {
          assert r[k] == acc'[k] == xs[0];
        } else {
          assert r[k] !in acc';
        }
      }
    }
  }

  /** The same loop, run in place on a vector. */
  method PushAbsent<T(==)>(acc: seq<T>, xs: seq<T>) returns (r: seq<T>)
    ensures r == AppendAbsent(acc, xs)
  {
    r := acc;
    var k := 0;
    while k < |xs|
      invariant 0 <= k <= |xs|
      invariant AppendAbsent(r, xs[k..]) == AppendAbsent(acc, xs)
    {
      assert xs[k..][1..] == xs[k + 1..];
      if xs[k] !in r {
        r := r + [xs[k]];
      }
      k := k + 1;
    }
  }

  // ---------------------------------------------------------------------
  // Strings

  /** `str::split(sep)`: always at least one piece, none containing `sep`. */
  function Split(s: string, sep: char): (parts: seq<string>)
    ensures |parts| >= 1
    ensures forall k | 0 <= k < |parts| :: sep !in parts[k]
    ensures Join(parts, sep) == s
  {
    if s == [] then [[]]
    else
      var rest := Split(s[1..], sep);
      if s[0] == sep then [[]] + rest
      else [[s[0]] + rest[0]] + rest[1..]
  }

  /** `join(sep)` on a list of strings. */
  function Join(parts: seq<string>, sep: char): string
  {
    if parts == [] then []
    else if |parts| == 1 then parts[0]
    else parts[0] + [sep] + Join(parts[1..], sep)
  }

  lemma {:induction false} SplitPrefix(p: string, tail: string, sep: char)
    requires sep !in p
    ensures Split(p + tail, sep) == [p + Split(tail, sep)[0]] + Split(tail, sep)[1..]
    decreases |p|
  {
    var x := Split(tail, sep);
    if p == [] {
      assert p + tail == tail;
      assert p + x[0] == x[0];
      assert x == [x[0]] + x[1..];
    } else {
      var s := p + tail;
      assert s[0] == p[0] && s[1..] == p[1..] + tail;
      SplitPrefix(p[1..], tail, sep);
      var rest := Split(s[1..], sep);
      assert rest == [p[1..] + x[0]] + x[1..];
      assert Split(s, sep) == [[s[0]] + rest[0]] + rest[1..];
      assert [p[0]] + (p[1..] + x[0]) == p + x[0];
    }
  }

  /** Splitting a join gives the pieces back, provided none contains the separator. */
  lemma {:induction false} SplitJoin(parts: seq<string>, sep: char)
    requires |parts| >= 1
    requires forall k | 0 <= k < |parts| :: sep !in parts[k]
    ensures Split(Join(parts, sep), sep) == parts
    decreases |parts|
  {
    if |parts| == 1 {
      SplitPrefix(parts[0], [], sep);
      assert parts[0] + [] == parts[0];
    } else {
      SplitJoin(parts[1..], sep);
      var tail := [sep] + Join(parts[1..], sep);
      assert Join(parts, sep) == parts[0] + tail;
      SplitPrefix(parts[0], tail, sep);
      assert tail[0] == sep && tail[1..] == Join(parts[1..], sep);
      assert Split(tail, sep) == [[]] + Split(tail[1..], sep);
      assert Split(tail, sep) == [[]] + parts[1..];
      assert parts[0] + [] == parts[0];
      assert parts == [parts[0]] + parts[1..];
    }
  }

  /** The elements of `xs` in reverse order. */
  function Reversed<T>(xs: seq<T>): (r: seq<T>)
    ensures |r| == |xs| && forall k | 0 <= k < |xs| :: r[k] == xs[|xs| - 1 - k]
  {
    if xs == [] then [] else Reversed(xs[1..]) + [xs[0]]
  }

  /** `str::split_once(c)`: the text before the first `c` and the text after it. */
  function SplitOnce(s: string, c: char): (r: Option<(string, string)>)
    ensures r.None? <==> c !in s
    ensures r.Some? ==> c !in r.value.0 && s == r.value.0 + [c] + r.value.1
  {
    if s == [] then None
    else if s[0] == c then Some(([], s[1..]))
    else match SplitOnce(s[1..], c)
      case None => None
      case Some((a, b)) => Some(([s[0]] + a, b))
  }

  /** `split_once` finds the first separator. */
  lemma {:induction false} SplitOnceOf(x: string, y: string, c: char)
    requires c !in x
    ensures SplitOnce(x + [c] + y, c) == Some((x, y))
    decreases |x|
  {
    var s := x + [c] + y;
    if x == [] {
      assert s[0] == c && s[1..] == y;
    } else {
      assert s[0] == x[0] && s[1..] == x[1..] + [c] + y;
      SplitOnceOf(x[1..], y, c);
      assert [x[0]] + x[1..] == x;
    }
  }

  predicate EndsWith(s: string, suffix: string) {
    |suffix| <= |s| && s[|s| - |suffix|..] == suffix
  }

  /** `str::strip_suffix`. */
  function StripSuffix(s: string, c: char): (r: Option<string>)
    ensures r.Some? <==> EndsWith(s, [c])
    ensures r.Some? ==> s == r.value + [c]
  {
    if |s| > 0 && s[|s| - 1] == c then Some(s[..|s| - 1]) else None
  }

  /** `char::is_whitespace`: the Unicode White_Space property. */
  predicate IsWhitespace(c: char) {
    ('\t' <= c <= '\r') || c == ' ' || c == '\U{85}' || c == '\U{A0}' || c == '\U{1680}'
    || ('\U{2000}' <= c <= '\U{200A}') || c == '\U{2028}' || c == '\U{2029}'
    || c == '\U{202F}' || c == '\U{205F}' || c == '\U{3000}'
  }

  function LeadingWhitespace(s: string): (n: nat)
    ensures n <= |s|
    ensures forall k | 0 <= k < n :: IsWhitespace(s[k])
    ensures n < |s| ==> !IsWhitespace(s[n])
  {
    if s == [] || !IsWhitespace(s[0]) then 0 else 1 + LeadingWhitespace(s[1..])
  }

  function TrailingWhitespace(s: string): (n: nat)
    ensures n <= |s|
    ensures forall k | |s| - n <= k < |s| :: IsWhitespace(s[k])
    ensures n < |s| ==> !IsWhitespace(s[|s| - n - 1])
  {
    if s == [] || !IsWhitespace(s[|s| - 1]) then 0 else 1 + TrailingWhitespace(s[..|s| - 1])
  }

  /** `str::trim`: drops leading and trailing whitespace. */
  function Trim(s: string): (r: string)
    ensures r == [] <==> forall k | 0 <= k < |s| :: IsWhitespace(s[k])
    ensures r != [] ==> !IsWhitespace(r[0]) && !IsWhitespace(r[|r| - 1])
    ensures r != [] ==>
              var l := LeadingWhitespace(s);
              l + |r| <= |s| && s[l..l + |r|] == r
              && forall k | l + |r| <= k < |s| :: IsWhitespace(s[k])
  {
    var l := LeadingWhitespace(s);
    if l == |s| then []
    else
      var t := TrailingWhitespace(s[l..]);
      var r := s[l..|s| - t];
      assert s[l..l + |r|] == r;
      assert r[0] == s[l];
      r
  }

  /** `str::replace(from, to)` for single-character patterns. */
  function ReplaceChar(s: string, from: char, to: char): (r: string)
    ensures |r| == |s|
    ensures forall k | 0 <= k < |s| :: r[k] == if s[k] == from then to else s[k]
  {
    if s == [] then [] else [if s[0] == from then to else s[0]] + ReplaceChar(s[1..], from, to)
  }

  /** The decimal digits of `n`, as `format!("{n}")` prints them. */
  function NatToString(n: nat): (r: string)
    ensures |r| >= 1
    ensures forall k | 0 <= k < |r| :: '0' <= r[k] <= '9'
  {
    if n < 10 then [('0' as int + n) as char]
    else NatToString(n / 10) + [('0' as int + n % 10) as char]
  }

  /** Different numbers print differently. */
  lemma {:induction false} NatToStringInjective(n: nat, m: nat)
    requires NatToString(n) == NatToString(m)
    ensures n == m
  {
    var s := NatToString(n);
    if n >= 10 && m >= 10 {
      assert NatToString(n / 10) == s[..|s| - 1] == NatToString(m / 10);
      NatToStringInjective(n / 10, m / 10);
      assert n % 10 == m % 10 by { assert s[|s| - 1] == NatToString(m)[|s| - 1]; }
    }
  }

  /** `format!("{n:0>w}")`: decimal digits left-padded with zeros to width `w`. */
  function PadZero(n: nat, w: nat): (r: string)
    ensures |r| == if |NatToString(n)| < w then w else |NatToString(n)|
    ensures r[|r| - |NatToString(n)|..] == NatToString(n)
    ensures forall k | 0 <= k < |r| - |NatToString(n)| :: r[k] == '0'
  {
    var d := NatToString(n);
    if |d| < w then seq(w - |d|, _ => '0') + d else d
  }
}
