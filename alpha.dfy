/** The alphabetic segmenter (src/morph/alpha.rs): the segments of a text
    are its maximal runs of alphabetic chars, located by byte offsets.
    Whether a char is alphabetic (Rust's `char::is_alphabetic`, the Unicode
    Alphabetic property) is given as the table `isAlpha`. */
module Alpha {
  import opened Utf8
  import opened Pattern
  import opened Common
  import opened KoreanSegment

  /** Chars `a` up to `b` of `text` are alphabetic, and the run cannot be
      extended on either side. */
  predicate Maximal(text: string, isAlpha: char -> bool, a: nat, b: nat) {
    a < b <= |text|
    && (forall m | a <= m < b :: isAlpha(text[m]))
    && (a == 0 || !isAlpha(text[a - 1]))
    && (b == |text| || !isAlpha(text[b]))
  }

  /** A segment `parse` emits: a non-empty byte range on char boundaries, its
      text the slice at that range, no words, and a maximal alphabetic run. */
  predicate Run(text: string, isAlpha: char -> bool, seg: Segment) {
    IsCharBoundary(text, seg.range.start) && IsCharBoundary(text, seg.range.end)
    && seg.range.start < seg.range.end
    && seg.text == Slice(text, seg.range.start, seg.range.end) && seg.words == []
    && Maximal(text, isAlpha, CharIndex(text, seg.range.start), CharIndex(text, seg.range.end))
  }

  /** Segments come in increasing order with a gap between each two. */
  predicate Increasing(segs: seq<Segment>) {
    forall j | 0 <= j < |segs| - 1 :: segs[j].range.end < segs[j + 1].range.start
  }

  /** The char at position `m` lies in one of the segments. */
  predicate Covered(text: string, isAlpha: char -> bool, segs: seq<Segment>, m: nat) {
    exists j | 0 <= j < |segs| ::
      Run(text, isAlpha, segs[j])
      && CharIndex(text, segs[j].range.start) <= m < CharIndex(text, segs[j].range.end)
  }

  predicate AllRuns(text: string, isAlpha: char -> bool, segs: seq<Segment>) {
    forall j | 0 <= j < |segs| :: Run(text, isAlpha, segs[j])
  }

  /** The segment for the run of chars `a` up to `b`. */
  function RunSegment(text: string, a: nat, b: nat): (seg: Segment)
    requires a < b <= |text|
    ensures seg.range.start == ByteLen(text[..a]) && seg.range.end == ByteLen(text[..b])
    ensures IsCharBoundary(text, seg.range.start) && IsCharBoundary(text, seg.range.end)
    ensures CharIndex(text, seg.range.start) == a && CharIndex(text, seg.range.end) == b
    ensures seg.range.start < seg.range.end
    ensures seg.text == Slice(text, seg.range.start, seg.range.end) == text[a..b]
  {
    SliceChars(text, a, b);
    CharIndexOf(text, a);
    CharIndexOf(text, b);
    PrefixLenStrict(text, a, b);
    var i, j := ByteLen(text[..a]), ByteLen(text[..b]);
    Segment(Range(i, j), Slice(text, i, j), [])
  }

  /** Encoded length of one more char. */
  lemma PrefixStep(text: string, k: nat)
    requires k < |text|
    ensures ByteLen(text[..k + 1]) == ByteLen(text[..k]) + CharWidth(text[k])
  {
    assert text[..k + 1] == text[..k] + [text[k]];
    ByteLenConcat(text[..k], [text[k]]);
  }

  /** Appending a segment keeps the chars already covered covered, and
      covers the chars of the new segment. */
  lemma CoverPush(text: string, isAlpha: char -> bool, segs: seq<Segment>, seg: Segment, m: nat)
    requires Run(text, isAlpha, seg)
    requires Covered(text, isAlpha, segs, m)
      || CharIndex(text, seg.range.start) <= m < CharIndex(text, seg.range.end)
    ensures Covered(text, isAlpha, segs + [seg], m)
  {
    var segs' := segs + [seg];
    if Covered(text, isAlpha, segs, m) {
      var j :| 0 <= j < |segs| && Run(text, isAlpha, segs[j])
        && CharIndex(text, segs[j].range.start) <= m < CharIndex(text, segs[j].range.end);
      assert segs'[j] == segs[j];
    } else {
      assert segs'[|segs|] == seg;
    }
  }

  /** What the scan knows once it has passed the first `k` positions (the
      chars, then the '.' at the end): `segs` holds maximal runs in
      increasing order, a run is open from char `sk` when `open`, and every
      alphabetic char passed is in a segment or in the open run. */
  predicate Scanned(text: string, isAlpha: char -> bool, segs: seq<Segment>, open: bool, sk: nat, k: nat) {
    k <= |text| + 1
    && AllRuns(text, isAlpha, segs) && Increasing(segs)
    && (!open ==> k == 0 || k > |text| || !isAlpha(text[k - 1]))
    && (open ==> sk < k <= |text| && (forall m | sk <= m < k :: isAlpha(text[m]))
                 && (sk == 0 || !isAlpha(text[sk - 1])))
    && (segs != [] ==> CharIndex(text, segs[|segs| - 1].range.end) < k
                       && (open ==> CharIndex(text, segs[|segs| - 1].range.end) < sk))
    && (forall m | 0 <= m < k && m < |text| && isAlpha(text[m]) ::
          Covered(text, isAlpha, segs, m) || (open && sk <= m))
  }

  /** Passing a position that neither opens nor closes a run. */
  lemma StayStep(text: string, isAlpha: char -> bool, segs: seq<Segment>, open: bool, sk: nat, k: nat)
    requires Scanned(text, isAlpha, segs, open, sk, k) && k <= |text|
    requires !isAlpha('.')
    requires open == isAlpha(if k < |text| then text[k] else '.')
    ensures Scanned(text, isAlpha, segs, open, sk, k + 1)
  {
  }

  /** An alphabetic char after a non-alphabetic one opens a run. */
  lemma OpenStep(text: string, isAlpha: char -> bool, segs: seq<Segment>, sk: nat, k: nat)
    requires Scanned(text, isAlpha, segs, false, sk, k) && k < |text| && isAlpha(text[k])
    ensures Scanned(text, isAlpha, segs, true, k, k + 1)
  {
  }

  lemma IncreasingPush(segs: seq<Segment>, seg: Segment)
    requires Increasing(segs)
    requires segs != [] ==> segs[|segs| - 1].range.end < seg.range.start
    ensures Increasing(segs + [seg])
  {
    var segs' := segs + [seg];
    forall j | 0 <= j < |segs'| - 1
      ensures segs'[j].range.end < segs'[j + 1].range.start
    {
      if j < |segs| - 1 {
        assert segs'[j] == segs[j] && segs'[j + 1] == segs[j + 1];
      }
    }
  }

  lemma AllRunsPush(text: string, isAlpha: char -> bool, segs: seq<Segment>, seg: Segment)
    requires AllRuns(text, isAlpha, segs) && Run(text, isAlpha, seg)
    ensures AllRuns(text, isAlpha, segs + [seg])
  {
    var segs' := segs + [seg];
    forall j | 0 <= j < |segs'|
      ensures Run(text, isAlpha, segs'[j])
    {
      if j < |segs| {
        assert segs'[j] == segs[j];
      }
    }
  }

  /** The segment closing the run from `sk` to `k` is a maximal run. */
  lemma ClosedRun(text: string, isAlpha: char -> bool, segs: seq<Segment>, sk: nat, k: nat)
    requires Scanned(text, isAlpha, segs, true, sk, k)
    requires k == |text| || !isAlpha(text[k])
    ensures Run(text, isAlpha, RunSegment(text, sk, k))
  {
  }

  /** A non-alphabetic char, or the end, closes the open run. */
  lemma CloseStep(text: string, isAlpha: char -> bool, segs: seq<Segment>, sk: nat, k: nat)
    requires Scanned(text, isAlpha, segs, true, sk, k)
    requires k == |text| || !isAlpha(text[k])
    ensures Scanned(text, isAlpha, segs + [RunSegment(text, sk, k)], false, 0, k + 1)
  {
    var seg := RunSegment(text, sk, k);
    var segs' := segs + [seg];
    ClosedRun(text, isAlpha, segs, sk, k);
    if segs != [] {
      PrefixLenStrict(text, CharIndex(text, segs[|segs| - 1].range.end), sk);
    }
    IncreasingPush(segs, seg);
    AllRunsPush(text, isAlpha, segs, seg);
    forall m | 0 <= m < k + 1 && m < |text| && isAlpha(text[m])
      ensures Covered(text, isAlpha, segs', m)
    {
      CoverPush(text, isAlpha, segs, seg, m);
    }
    assert segs'[|segs'| - 1] == seg;
  }

  /** `AlphabeticParser::parse`: walks the chars with their byte offsets and
      then one '.' at the end of the text, opening a run at an alphabetic char
      and closing it at the next non-alphabetic one. Each segment is a maximal
      alphabetic run, the segments are in increasing order, and every
      alphabetic char lies in one of them. */
  method Parse(text: string, isAlpha: char -> bool) returns (segs: seq<Segment>)
    requires !isAlpha('.')
    ensures AllRuns(text, isAlpha, segs)
    ensures Increasing(segs)
    ensures forall m | 0 <= m < |text| && isAlpha(text[m]) :: Covered(text, isAlpha, segs, m)
  {
    segs := [];
    var start: Option<nat> := None;
    ghost var sk: nat := 0;
    var i: nat := 0;
    var k: nat := 0;
    while k <= |text|
      invariant Scanned(text, isAlpha, segs, start.Some?, sk, k)
      invariant k <= |text| ==> i == ByteLen(text[..k])
      invariant start.Some? ==> start.value == ByteLen(text[..sk])
      invariant k > |text| ==> start.None?
    {
      var ch := if k < |text| then text[k] else '.';
      match (start, isAlpha(ch)) {
        case (None, true) =>
          OpenStep(text, isAlpha, segs, sk, k);
          start := Some(i);
          sk := k;
        case (Some(j), false) =>
          if k == |text| {
            assert text[..k] == text;
          }
          CloseStep(text, isAlpha, segs, sk, k);
          var seg := RunSegment(text, sk, k);
          assert seg == Segment(Range(j, i), Slice(text, j, i), []);
          start := None;
          segs := segs + [Segment(Range(j, i), Slice(text, j, i), [])];
        case _ =>
          StayStep(text, isAlpha, segs, start.Some?, sk, k);
      }
      if k < |text| {
        PrefixStep(text, k);
        i := i + CharWidth(ch);
      }
      k := k + 1;
    }
  }
}
