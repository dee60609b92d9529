/** Subtitle clean-up (src/vtt.rs): runs of a repeated chunk inside a cue line
    are cut down, cue timings are put in order, and neighbouring cues that
    continue each other are merged. The WebVTT text format itself (parsing and
    rendering) is not modelled: a file is given as its list of blocks. */
module Vtt {
  import opened Common

  // ---------------------------------------------------------------------
  // Repetition truncation

  datatype TruncateOptions = TruncateOptions(
    maxRepetitions: nat,
    truncatedRepetitions: nat,
    truncationSuffix: string)

  /** `k` copies of `x`, back to back. */
  function Repeat(x: string, k: nat): string
  {
    if k == 0 then [] else x + Repeat(x, k - 1)
  }

  lemma {:induction false} RepeatLen(x: string, k: nat)
    ensures |Repeat(x, k)| == k * |x|
  {
    if k > 0 {
      RepeatLen(x, k - 1);
    }
  }

  lemma {:induction false} RepeatSnoc(x: string, k: nat)
    ensures Repeat(x, k + 1) == Repeat(x, k) + x
  {
    if k > 0 {
      RepeatSnoc(x, k - 1);
    }
  }

  /** How many copies of `x` open `t`, one after the other. */
  function Copies(x: string, t: string): (c: nat)
    requires |x| >= 1
    ensures c <= |t|
    decreases |t|
  {
    if |x| <= |t| && t[..|x|] == x then 1 + Copies(x, t[|x|..]) else 0
  }

  /** The length of those copies. */
  function CopiesLen(x: string, t: string): (k: nat)
    requires |x| >= 1
    ensures k <= |t|
    ensures k == 0 <==> !(|x| <= |t| && t[..|x|] == x)
    decreases |t|
  {
    if |x| <= |t| && t[..|x|] == x then |x| + CopiesLen(x, t[|x|..]) else 0
  }

  /** The copies are exactly the prefix of that length, and what follows
      them does not start with another copy. */
  lemma {:induction false} CopiesSpec(x: string, t: string)
    requires |x| >= 1
    ensures var c, k := Copies(x, t), CopiesLen(x, t);
            k == c * |x| && t[..k] == Repeat(x, c)
            && !(|x| <= |t[k..]| && t[k..][..|x|] == x)
    decreases |t|
  {
    if |x| <= |t| && t[..|x|] == x {
      var t' := t[|x|..];
      CopiesSpec(x, t');
      var c, k := Copies(x, t'), CopiesLen(x, t');
      assert t[..|x| + k] == x + t'[..k];
      assert t[|x| + k..] == t'[k..];
    } else {
      assert t[..0] == [];
      assert t[0..] == t;
    }
  }

  /** `s` opens with a run of `c` copies of `x` exactly when `c` copies lie
      at its start. */
  lemma {:induction false} CopiesAfterRun(x: string, s: string, c: nat)
    requires |x| >= 1 && c * |x| <= |s| && s[..c * |x|] == Repeat(x, c)
    ensures Copies(x, s) == c + Copies(x, s[c * |x|..])
    decreases c
  {
    if c > 0 {
      assert s[..|x|] == s[..c * |x|][..|x|] == x;
      var s' := s[|x|..];
      assert s'[..(c - 1) * |x|] == s[..c * |x|][|x|..];
      CopiesAfterRun(x, s', c - 1);
      assert s'[(c - 1) * |x|..] == s[c * |x|..];
    } else {
      assert s[0..] == s;
    }
  }

  /** `count` in `truncate_repetitions`: how many consecutive copies of the
      chunk `s[..n]` open `s`. A chunk longer than the text counts once, as
      the first window already fails. */
  function RepeatCount(s: string, n: nat): (c: nat)
    requires n >= 1
    ensures c >= 1
  {
    if n > |s| then 1 else Copies(s[..n], s)
  }

  /** The number of chars those copies take up. */
  function RunLen(s: string, n: nat): (k: nat)
    requires 1 <= n <= |s|
    ensures n <= k <= |s|
  {
    CopiesLen(s[..n], s)
  }

  /** The run is `c` copies of the chunk, `n * c` chars long, and the chunk
      after it is missing or different. */
  lemma RunShape(s: string, n: nat)
    requires 1 <= n <= |s|
    ensures var c, k, x := RepeatCount(s, n), RunLen(s, n), s[..n];
            k == n * c && s[..k] == Repeat(x, c) && !(k + n <= |s| && s[k..k + n] == x)
  {
    var k := RunLen(s, n);
    CopiesSpec(s[..n], s);
    if k + n <= |s| {
      assert s[k..][..n] == s[k..k + n];
    }
  }

  /** The last of `j` copies is a copy. */
  lemma LastCopy(x: string, j: nat)
    requires j >= 1
    ensures |x| <= |Repeat(x, j)| && Repeat(x, j)[|Repeat(x, j)| - |x|..] == x
  {
    RepeatSnoc(x, j - 1);
  }

  lemma PrefixSplit(s: string, p: nat, q: nat)
    requires p <= q <= |s|
    ensures s[..q] == s[..p] + s[p..q]
  {
  }

  /** One more window of the scan matched: the run is one copy longer. */
  lemma RunGrows(s: string, x: string, j: nat, p: nat)
    requires |x| >= 1 && j >= 1 && p + |x| <= |s|
    requires s[..p] == Repeat(x, j) && Copies(x, s) == j + Copies(x, s[p..])
    requires p >= |x| && s[p - |x|..p] == s[p..p + |x|]
    ensures s[..p + |x|] == Repeat(x, j + 1) && Copies(x, s) == j + 1 + Copies(x, s[p + |x|..])
  {
    LastCopy(x, j);
    assert s[p - |x|..p] == s[..p][p - |x|..];
    PrefixSplit(s, p, p + |x|);
    RepeatSnoc(x, j);
    assert s[p..][..|x|] == x && s[p..][|x|..] == s[p + |x|..];
  }

  /** The scan stopped: the run has exactly `j` copies. */
  lemma RunStops(s: string, x: string, j: nat, p: nat)
    requires |x| >= 1 && j >= 1 && p <= |s|
    requires s[..p] == Repeat(x, j) && Copies(x, s) == j + Copies(x, s[p..])
    requires p >= |x| && !(p + |x| <= |s| && s[p - |x|..p] == s[p..p + |x|])
    ensures Copies(x, s) == j
  {
    if p + |x| <= |s| {
      LastCopy(x, j);
      assert s[p - |x|..p] == s[..p][p - |x|..];
      assert s[p..][..|x|] == s[p..p + |x|];
    }
  }

  /** The state after the `for n in 1..=max` loop of one outer step: what it
      appended, the text left, and whether any chunk size fired. */
  datatype Swept = Swept(out: string, rest: string, truncated: bool)

  predicate Fires(s: string, n: nat, opts: TruncateOptions)
    requires n >= 1
  {
    RepeatCount(s, n) > opts.maxRepetitions
  }

  /** The chunk sizes `n..max` tried in turn on a text that shrinks each time
      one of them fires. */
  function Sweep(s: string, n: nat, max: nat, opts: TruncateOptions): (r: Swept)
    requires opts.maxRepetitions > 0 && 1 <= n <= max + 1
    ensures |r.rest| <= |s| && r.rest == s[|s| - |r.rest|..]
    ensures r.truncated ==> |r.rest| < |s|
    ensures !r.truncated ==> r.out == [] && r.rest == s
    decreases max + 1 - n, 1
  {
    if n > max then Swept([], s, false)
    else if !Fires(s, n, opts) then Sweep(s, n + 1, max, opts)
    else Cut(s, n, max, opts)
  }

  /** Chunk size `n` fires: its run is replaced by `truncated_repetitions`
      copies and the suffix, and the sweep goes on after the run. */
  function Cut(s: string, n: nat, max: nat, opts: TruncateOptions): (r: Swept)
    requires opts.maxRepetitions > 0 && 1 <= n <= max && Fires(s, n, opts)
    ensures |r.rest| < |s| && r.rest == s[|s| - |r.rest|..] && r.truncated
    decreases max + 1 - n, 0
  {
    var k := RunLen(s, n);
    var w := Sweep(s[k..], n + 1, max, opts);
    assert s[k..][|s[k..]| - |w.rest|..] == s[|s| - |w.rest|..];
    Swept(Repeat(s[..n], opts.truncatedRepetitions) + opts.truncationSuffix + w.out, w.rest, true)
  }

  /** `s.len() / max_repetitions`: the largest chunk size tried on `s`. */
  function MaxChunk(s: string, opts: TruncateOptions): nat
    requires opts.maxRepetitions > 0
  {
    |s| / opts.maxRepetitions
  }

  /** `truncate_repetitions`: each step either cuts a run of some chunk repeated
      more than `max_repetitions` times down to `truncated_repetitions` copies
      and the suffix, or copies one char. The source divides by
      `max_repetitions`, so it must be positive. */
  function Truncate(s: string, opts: TruncateOptions): string
    requires opts.maxRepetitions > 0
    decreases |s|
  {
    if s == [] then []
    else
      var w := Sweep(s, 1, MaxChunk(s, opts), opts);
      if w.truncated then w.out + Truncate(w.rest, opts)
      else [s[0]] + Truncate(s[1..], opts)
  }

  lemma Assoc(a: string, b: string, c: string)
    ensures (a + b) + c == a + (b + c)
  {
  }

  lemma TruncateStep(s: string, opts: TruncateOptions)
    requires opts.maxRepetitions > 0 && s != []
    ensures var w := Sweep(s, 1, MaxChunk(s, opts), opts);
            Truncate(s, opts) == if w.truncated then w.out + Truncate(w.rest, opts) else [s[0]] + Truncate(s[1..], opts)
  {
  }

  /** No chunk size fires anywhere in `s`. */
  predicate Quiet(s: string, opts: TruncateOptions)
    requires opts.maxRepetitions > 0
  {
    forall p, n | 0 <= p < |s| && 1 <= n <= MaxChunk(s[p..], opts) :: !Fires(s[p..], n, opts)
  }

  /** When no truncation fires, every char is copied in order. */
  lemma {:induction false} QuietUnchanged(s: string, opts: TruncateOptions)
    requires opts.maxRepetitions > 0 && Quiet(s, opts)
    ensures Truncate(s, opts) == s
    decreases |s|
  {
    if s != [] {
      assert s[0..] == s;
      SweepSkips(s, 1, MaxChunk(s, opts) + 1, MaxChunk(s, opts), opts);
      forall p, n | 0 <= p < |s[1..]| && 1 <= n <= MaxChunk(s[1..][p..], opts)
        ensures !Fires(s[1..][p..], n, opts)
      {
        assert s[1..][p..] == s[p + 1..];
      }
      QuietUnchanged(s[1..], opts);
    }
  }

  /** A text no longer than `max_repetitions` cannot hold a run long enough to
      fire, so it comes back unchanged. */
  lemma ShortUnchanged(s: string, opts: TruncateOptions)
    requires opts.maxRepetitions > 0 && |s| <= opts.maxRepetitions
    ensures Truncate(s, opts) == s
  {
    forall p, n | 0 <= p < |s| && 1 <= n <= MaxChunk(s[p..], opts)
      ensures !Fires(s[p..], n, opts)
    {
      assert RepeatCount(s[p..], n) <= |s|;
    }
    QuietUnchanged(s, opts);
  }

  lemma {:induction false} SweepSkips(s: string, n: nat, m: nat, max: nat, opts: TruncateOptions)
    requires opts.maxRepetitions > 0 && 1 <= n <= m <= max + 1
    requires forall k | n <= k < m :: !Fires(s, k, opts)
    ensures Sweep(s, n, max, opts) == Sweep(s, m, max, opts)
    decreases m - n
  {
    if n < m {
      assert !Fires(s, n, opts);
      SweepSkips(s, n + 1, m, max, opts);
    }
  }

  /** The first chunk size that fires on `s` decides how the output starts:
      exactly `truncated_repetitions` copies of the chunk and the suffix
      (and `RunShape` says which chars that consumes). */
  lemma FirstFiring(s: string, n: nat, opts: TruncateOptions)
    requires opts.maxRepetitions > 0 && 1 <= n <= MaxChunk(s, opts)
    requires Fires(s, n, opts) && forall k | 1 <= k < n :: !Fires(s, k, opts)
    ensures Repeat(s[..n], opts.truncatedRepetitions) + opts.truncationSuffix <= Truncate(s, opts)
  {
    SweepSkips(s, 1, n, MaxChunk(s, opts), opts);
  }

  /** The scan state of the innermost loop: `j` copies of `x` read up to
      offset `p`, the rest of the run still ahead. */
  ghost predicate Counted(s: string, x: string, j: nat, p: nat) {
    |x| >= 1 && j >= 1 && |x| <= p <= |s| && s[..p] == Repeat(x, j)
    && Copies(x, s) == j + Copies(x, s[p..])
  }

  /** The first window is one copy of the chunk. */
  lemma RunStarts(s: string, n: nat)
    requires 1 <= n <= |s|
    ensures Counted(s, s[..n], 1, n)
  {
    var x := s[..n];
    assert s[..n] == Repeat(x, 1);
  }

  /** The innermost loop of `truncate_repetitions`: windows `(i, j, k)` over
      chunks of length `n` until chunk `k` is missing or chunk `j` differs
      from chunk `i`. */
  method CountRepeats(s: string, n: nat) returns (count: nat)
    requires n >= 1
    ensures count == RepeatCount(s, n)
  {
    // `p` is the offset `j * n` of chunk `j`; chunk `i` starts at `p - n`
    // and chunk `k` ends at `p + n`.
    var j, p := 1, n;
    ghost var x := if n <= |s| then s[..n] else [];
    if n <= |s| {
      RunStarts(s, n);
    }
    while !(p + n > |s| || s[p - n..p] != s[p..p + n])
      invariant j >= 1 && p >= n
      invariant n <= |s| ==> |x| == n && Counted(s, x, j, p)
      invariant n > |s| ==> j == 1
      decreases |s| - p
    {
      RunGrows(s, x, j, p);
      j, p := j + 1, p + n;
    }
    if n <= |s| {
      RunStops(s, x, j, p);
    }
    count := j;
  }

  /** `for _ in 0..k { result += chunk }`. */
  method AppendCopies(result: string, x: string, k: nat) returns (r: string)
    ensures r == result + Repeat(x, k)
  {
    r := result;
    for i := 0 to k
      invariant r == result + Repeat(x, i)
    {
      RepeatSnoc(x, i);
      r := r + x;
    }
  }

  /** The `for n in 1..=max` loop of one outer step. */
  method SweepSizes(s0: string, max: nat, opts: TruncateOptions) returns (out: string, s: string, truncated: bool)
    requires opts.maxRepetitions > 0
    ensures Swept(out, s, truncated) == Sweep(s0, 1, max, opts)
  {
    out, s, truncated := [], s0, false;
    for n := 1 to max + 1
      invariant var w := Sweep(s, n, max, opts);
                Sweep(s0, 1, max, opts) == Swept(out + w.out, w.rest, truncated || w.truncated)
    {
      var count := CountRepeats(s, n);
      if count <= opts.maxRepetitions {
        continue;
      }
      RunShape(s, n);
      ghost var w := Sweep(s[n * count..], n + 1, max, opts);
      ghost var chunk := Repeat(s[..n], opts.truncatedRepetitions);
      assert Sweep(s, n, max, opts) == Swept(chunk + opts.truncationSuffix + w.out, w.rest, true);
      Assoc(out, chunk, opts.truncationSuffix);
      Assoc(out, chunk + opts.truncationSuffix, w.out);
      out := AppendCopies(out, s[0..n], opts.truncatedRepetitions);
      out := out + opts.truncationSuffix;
      s := s[n * count..];
      truncated := true;
    }
  }

  method TruncateRepetitions(s0: string, opts: TruncateOptions) returns (result: string)
    requires opts.maxRepetitions > 0
    ensures result == Truncate(s0, opts)
  {
    result := [];
    var s := s0;
    while s != []
      invariant result + Truncate(s, opts) == Truncate(s0, opts)
      decreases |s|
    {
      var max := MaxChunk(s, opts);
      var out, rest, truncated := SweepSizes(s, max, opts);
      TruncateStep(s, opts);
      if truncated {
        Assoc(result, out, Truncate(rest, opts));
        result := result + out;
        s := rest;
        continue;
      }
      Assoc(result, [s[0]], Truncate(s[1..], opts));
      result := result + [s[0]];
      s := s[1..];
    }
  }

  // ---------------------------------------------------------------------
  // Cues

  /** A WebVTT timestamp; timestamps are compared by the time they stand for. */
  datatype Timestamp = Timestamp(hours: nat, minutes: nat, seconds: nat, millis: nat)

  function Millis(t: Timestamp): nat {
    ((t.hours * 60 + t.minutes) * 60 + t.seconds) * 1000 + t.millis
  }

  /** `Ord::min`: the first on ties. */
  function Earlier(a: Timestamp, b: Timestamp): (r: Timestamp)
    ensures Millis(r) <= Millis(a) && Millis(r) <= Millis(b) && (r == a || r == b)
  {
    if Millis(a) <= Millis(b) then a else b
  }

  /** `Ord::max`: the second on ties. */
  function Later(a: Timestamp, b: Timestamp): (r: Timestamp)
    ensures Millis(a) <= Millis(r) && Millis(b) <= Millis(r) && (r == a || r == b)
  {
    if Millis(a) <= Millis(b) then b else a
  }

  /** A cue; its settings are kept as the text they are written as. */
  datatype Cue = Cue(
    identifier: Option<string>,
    start: Timestamp,
    end: Timestamp,
    settings: Option<string>,
    payload: seq<string>)

  predicate Ordered(c: Cue) {
    Millis(c.start) <= Millis(c.end)
  }

  /** The payload lines as one text, `payload.join("\n")`. */
  function Text(c: Cue): string {
    Join(c.payload, '\n')
  }

  /** `canonicalize_cue`: the timings in order and every payload line truncated. */
  function CanonicalizeCue(cue: Cue, opts: TruncateOptions): (r: Cue)
    requires opts.maxRepetitions > 0
    ensures Ordered(r)
    ensures multiset{r.start, r.end} == multiset{cue.start, cue.end}
    ensures r.identifier == cue.identifier && r.settings == cue.settings
    ensures |r.payload| == |cue.payload|
    ensures forall k | 0 <= k < |cue.payload| :: r.payload[k] == Truncate(cue.payload[k], opts)
  {
    var payload := seq(|cue.payload|, k requires 0 <= k < |cue.payload| => Truncate(cue.payload[k], opts));
    cue.(start := Earlier(cue.start, cue.end), end := Later(cue.start, cue.end), payload := payload)
  }

  /** A cue already in order whose lines hold no run to truncate is canonical. */
  lemma CanonicalIsFixed(cue: Cue, opts: TruncateOptions)
    requires opts.maxRepetitions > 0 && Ordered(cue)
    requires forall k | 0 <= k < |cue.payload| :: Quiet(cue.payload[k], opts)
    ensures CanonicalizeCue(cue, opts) == cue
  {
    var r := CanonicalizeCue(cue, opts);
    forall k | 0 <= k < |cue.payload| ensures r.payload[k] == cue.payload[k] {
      QuietUnchanged(cue.payload[k], opts);
    }
  }

  /** The gap between the end of `a` and the start of a later-starting `b`
      is too wide to merge across. */
  predicate TooFar(a: Cue, b: Cue, maxGap: nat) {
    Millis(b.start) > Millis(a.end) && Millis(b.start) - Millis(a.end) > maxGap
  }

  /** `merge_cues`: two cues with the same identifier and settings, close
      enough in time, where one's text continues the other's, become one cue
      spanning both, with the longer text. */
  function MergeCues(a: Cue, b: Cue, maxGap: nat): (r: Option<Cue>)
    ensures var (x, y) := if Millis(a.start) > Millis(b.start) then (b, a) else (a, b);
            r.Some? <==> x.identifier == y.identifier && x.settings == y.settings
                         && !TooFar(x, y, maxGap) && (Text(y) <= Text(x) || Text(x) <= Text(y))
    ensures r.Some? ==>
              r.value.start == Earlier(a.start, b.start)
              && Millis(r.value.end) == Millis(Later(a.end, b.end))
              && r.value.identifier == a.identifier && r.value.settings == a.settings
              && Text(a) <= Text(r.value) && Text(b) <= Text(r.value)
              && (r.value.payload == a.payload || r.value.payload == b.payload)
    decreases if Millis(a.start) > Millis(b.start) then 1 else 0
  {
    if Millis(a.start) > Millis(b.start) then MergeCues(b, a, maxGap)
    else if a.identifier != b.identifier then None
    else if a.settings != b.settings then None
    else if TooFar(a, b, maxGap) then None
    else
      var start, end := a.start, Later(a.end, b.end);
      if Text(b) <= Text(a) then Some(a.(start := start, end := end))
      else if Text(a) <= Text(b) then Some(b.(start := start, end := end))
      else None
  }

  /** The order of two cues with different starts does not matter. */
  lemma MergeSymmetric(a: Cue, b: Cue, maxGap: nat)
    requires Millis(a.start) != Millis(b.start)
    ensures MergeCues(a, b, maxGap) == MergeCues(b, a, maxGap)
  {
  }

  /** Merging cues whose timings are in order gives a cue whose timings are in
      order, covering both. */
  lemma MergeOrdered(a: Cue, b: Cue, maxGap: nat)
    requires Ordered(a) && Ordered(b) && MergeCues(a, b, maxGap).Some?
    ensures var m := MergeCues(a, b, maxGap).value;
            Ordered(m)
            && Millis(m.start) <= Millis(a.start) && Millis(m.start) <= Millis(b.start)
            && Millis(a.end) <= Millis(m.end) && Millis(b.end) <= Millis(m.end)
  {
  }

  // ---------------------------------------------------------------------
  // Blocks

  /** A block of a WebVTT file: a cue, or anything else (a note, a style or a
      region definition), kept as its text. */
  datatype Block = CueBlock(cue: Cue) | OtherBlock(content: string)

  datatype WebVtt = WebVtt(header: Option<string>, blocks: seq<Block>)

  datatype CleanOptions = CleanOptions(maxMergeGapMillis: nat, truncate: TruncateOptions)

  function CanonicalizeBlock(b: Block, opts: TruncateOptions): (r: Block)
    requires opts.maxRepetitions > 0
    ensures r.CueBlock? <==> b.CueBlock?
    ensures r.CueBlock? ==> r.cue == CanonicalizeCue(b.cue, opts)
    ensures r.OtherBlock? ==> r == b
    ensures r.CueBlock? ==> Ordered(r.cue) && multiset{r.cue.start, r.cue.end} == multiset{b.cue.start, b.cue.end}
    ensures r.CueBlock? ==> r.cue.identifier == b.cue.identifier && r.cue.settings == b.cue.settings
  {
    match b
    case CueBlock(cue) => CueBlock(CanonicalizeCue(cue, opts))
    case OtherBlock(_) => b
  }

  /** `merge_blocks`: only a cue merges, and only with a cue. */
  function MergeBlocks(a: Block, b: Block, maxGap: nat): (r: Option<Block>)
    ensures r.Some? <==> a.CueBlock? && b.CueBlock? && MergeCues(a.cue, b.cue, maxGap).Some?
    ensures r.Some? ==> r.value == CueBlock(MergeCues(a.cue, b.cue, maxGap).value)
    ensures r.Some? && Ordered(a.cue) && Ordered(b.cue) ==>
              Ordered(r.value.cue)
              && Millis(r.value.cue.start) <= Millis(a.cue.start) && Millis(r.value.cue.start) <= Millis(b.cue.start)
              && Millis(a.cue.end) <= Millis(r.value.cue.end) && Millis(b.cue.end) <= Millis(r.value.cue.end)
  {
    if a.CueBlock? && b.CueBlock? then
      match MergeCues(a.cue, b.cue, maxGap)
      case Some(m) =>
        if Ordered(a.cue) && Ordered(b.cue) then
          MergeOrdered(a.cue, b.cue, maxGap);
          Some(CueBlock(m))
        else Some(CueBlock(m))
      case None => None
    else None
  }

  /** One step of `clean`: the canonical block merges into the last block
      kept, or is kept after it. */
  function Push(acc: seq<Block>, b: Block, maxGap: nat): seq<Block>
  {
    if acc == [] then [b]
    else match MergeBlocks(acc[|acc| - 1], b, maxGap)
      case Some(m) => acc[..|acc| - 1] + [m]
      case None => acc + [b]
  }

  function CleanBlocks(blocks: seq<Block>, opts: CleanOptions): seq<Block>
    requires opts.truncate.maxRepetitions > 0
  {
    if blocks == [] then []
    else Push(CleanBlocks(blocks[..|blocks| - 1], opts),
              CanonicalizeBlock(blocks[|blocks| - 1], opts.truncate), opts.maxMergeGapMillis)
  }

  /** `clean`: the file with its blocks canonicalised and merged. */
  method Clean(vtt: WebVtt, opts: CleanOptions) returns (r: WebVtt)
    requires opts.truncate.maxRepetitions > 0
    ensures r == vtt.(blocks := CleanBlocks(vtt.blocks, opts))
  {
    var blocks := [];
    for k := 0 to |vtt.blocks|
      invariant blocks == CleanBlocks(vtt.blocks[..k], opts)
    {
      assert vtt.blocks[..k + 1][..k] == vtt.blocks[..k];
      var block := CanonicalizeBlock(vtt.blocks[k], opts.truncate);
      if blocks == [] {
        blocks := blocks + [block];
        continue;
      }
      var merged := MergeBlocks(blocks[|blocks| - 1], block, opts.maxMergeGapMillis);
      if merged.Some? {
        blocks := blocks[..|blocks| - 1];
        blocks := blocks + [merged.value];
        continue;
      }
      blocks := blocks + [block];
    }
    assert vtt.blocks[..|vtt.blocks|] == vtt.blocks;
    r := vtt.(blocks := blocks);
  }

  /** The non-cue blocks, in order. */
  function Others(blocks: seq<Block>): seq<Block>
  {
    if blocks == [] then []
    else Others(blocks[..|blocks| - 1]) + (if blocks[|blocks| - 1].OtherBlock? then [blocks[|blocks| - 1]] else [])
  }

  lemma {:induction false} OthersConcat(a: seq<Block>, b: seq<Block>)
    ensures Others(a + b) == Others(a) + Others(b)
    decreases |b|
  {
    if b == [] {
      assert a + b == a;
    } else {
      assert (a + b)[..|a + b| - 1] == a + b[..|b| - 1];
      OthersConcat(a, b[..|b| - 1]);
    }
  }

  predicate AllOrdered(blocks: seq<Block>) {
    forall k | 0 <= k < |blocks| && blocks[k].CueBlock? :: Ordered(blocks[k].cue)
  }

  /** One step keeps the non-cue blocks and the order of every cue's timings. */
  lemma PushShape(acc: seq<Block>, b: Block, maxGap: nat)
    requires AllOrdered(acc) && (b.CueBlock? ==> Ordered(b.cue))
    ensures var r := Push(acc, b, maxGap);
            r != [] && |r| <= |acc| + 1 && Others(r) == Others(acc) + Others([b]) && AllOrdered(r)
  {
    PushOthers(acc, b, maxGap);
    PushOrdered(acc, b, maxGap);
  }

  /** A push adds the pushed block's non-cue part, and no other, to the end. */
  lemma PushOthers(acc: seq<Block>, b: Block, maxGap: nat)
    ensures Others(Push(acc, b, maxGap)) == Others(acc) + Others([b])
  {
    assert [b][..0] == [];
    if acc == [] {
      OthersConcat([], [b]);
      assert [] + [b] == [b];
    } else {
      var init, last := acc[..|acc| - 1], acc[|acc| - 1];
      assert acc == init + [last];
      OthersConcat(init, [last]);
      assert [last][..0] == [];
      match MergeBlocks(last, b, maxGap)
      case Some(m) =>
        OthersConcat(init, [m]);
        assert [m][..0] == [];
      case None =>
        OthersConcat(acc, [b]);
    }
  }

  /** A push of an ordered cue onto ordered cues leaves every cue ordered. */
  lemma PushOrdered(acc: seq<Block>, b: Block, maxGap: nat)
    requires AllOrdered(acc) && (b.CueBlock? ==> Ordered(b.cue))
    ensures var r := Push(acc, b, maxGap);
            r != [] && |r| <= |acc| + 1 && AllOrdered(r)
  {
    if acc != [] {
      var last := acc[|acc| - 1];
      match MergeBlocks(last, b, maxGap)
      case Some(m) =>
        MergeOrdered(last.cue, b.cue, maxGap);
      case None =>
    }
  }

  /** `clean` never adds blocks and keeps at least one of a non-empty list. */
  lemma {:induction false} CleanLength(blocks: seq<Block>, opts: CleanOptions)
    requires opts.truncate.maxRepetitions > 0
    ensures |CleanBlocks(blocks, opts)| <= |blocks|
    ensures blocks != [] ==> CleanBlocks(blocks, opts) != []
    decreases |blocks|
  {
    if blocks != [] {
      var init := blocks[..|blocks| - 1];
      CleanLength(init, opts);
    }
  }

  /** `clean` passes every non-cue block through in order and leaves every
      cue with its timings in order. */
  lemma {:induction false} CleanShape(blocks: seq<Block>, opts: CleanOptions)
    requires opts.truncate.maxRepetitions > 0
    ensures Others(CleanBlocks(blocks, opts)) == Others(blocks)
    ensures AllOrdered(CleanBlocks(blocks, opts))
    decreases |blocks|
  {
    if blocks != [] {
      var init, last := blocks[..|blocks| - 1], blocks[|blocks| - 1];
      var b := CanonicalizeBlock(last, opts.truncate);
      CleanShape(init, opts);
      PushShape(CleanBlocks(init, opts), b, opts.maxMergeGapMillis);
      assert blocks == init + [last];
      OthersConcat(init, [last]);
      assert [last][..0] == [] && [b][..0] == [];
    }
  }
}
