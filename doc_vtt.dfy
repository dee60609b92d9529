/** Reading a WebVTT subtitle file as a document (src/doc/vtt.rs): the cues'
    texts, stripped of markup, are stitched into one running text, where a
    cue that repeats the end of the text so far (as rolling captions do) only
    adds what is new. Offsets are UTF-8 byte offsets, as in the source. */
module DocVtt {
  import opened Common
  import opened Utf8
  import Vtt

  // ---------------------------------------------------------------------
  // Word starts

  /** A word starts at char position `k`: a non-whitespace char that is the
      first char or follows whitespace. */
  predicate WordStartAt(s: string, k: nat) {
    k < |s| && !IsWhitespace(s[k]) && (k == 0 || IsWhitespace(s[k - 1]))
  }

  /** The byte offset `i` is the start of a word (`CharIndex` is 0 exactly
      when `i` is 0). */
  predicate WordStart(s: string, i: nat) {
    IsCharBoundary(s, i) && WordStartAt(s, CharIndex(s, i))
  }

  /** `is_word_start`: checks the boundary and the char at `i`, then walks
      back byte by byte to the previous boundary and looks at the char there.
      (The source's `j == 0` exit inside that walk is never taken, because
      offset 0 is always a boundary.) */
  method IsWordStart(s: string, i: nat) returns (r: bool)
    ensures r == WordStart(s, i)
  {
    if !IsCharBoundary(s, i) {
      return false;
    }
    var k := CharIndex(s, i);
    if k == |s| || IsWhitespace(s[k]) {
      return false;
    }
    if i == 0 {
      return true;
    }
    PreviousBoundary(s, i);
    var j := i - 1;
    while !IsCharBoundary(s, j)
      invariant j < i
      invariant forall m: nat | j < m < i :: !IsCharBoundary(s, m)
      decreases j
    {
      j := j - 1;
    }
    var p := ByteLen(s[..k - 1]);
    assert j == p by {
      assert !(j < p) && !(p < j);
    }
    r := IsWhitespace(s[CharIndex(s, j)]);
  }

  /** A word start in a prefix is one in the whole text. */
  lemma WordStartPrefix(x: string, y: string, i: nat)
    requires WordStart(x, i)
    ensures WordStart(x + y, i)
  {
    PrefixBoundary(x, y, i);
  }

  // ---------------------------------------------------------------------
  // Tags

  /** Whether a tag is open after reading `s` with the flag first at `tag`. */
  function TagOpen(s: string, tag: bool): bool
  {
    if s == [] then tag
    else TagOpen(s[1..], if s[0] == '<' then true else if s[0] == '>' then false else tag)
  }

  /** What `remove_tags` keeps of `s`, reading it with the tag flag first at
      `tag`: `<` opens a tag, `>` closes one, and chars outside tags are kept. */
  function StripTags(s: string, tag: bool): (r: string)
    ensures '<' !in r && '>' !in r
    ensures |r| <= |s|
  {
    if s == [] then []
    else if s[0] == '<' then StripTags(s[1..], true)
    else if s[0] == '>' then StripTags(s[1..], false)
    else if tag then StripTags(s[1..], tag)
    else [s[0]] + StripTags(s[1..], tag)
  }

  lemma Assoc(a: string, b: string, c: string)
    ensures (a + b) + c == a + (b + c)
  {
  }

  /** `remove_tags`. */
  method RemoveTags(s: string) returns (result: string)
    ensures result == StripTags(s, false)
  {
    result := [];
    var tag := false;
    for k := 0 to |s|
      invariant result + StripTags(s[k..], tag) == StripTags(s, false)
    {
      var c := s[k];
      assert s[k..][1..] == s[k + 1..];
      if c == '<' {
        tag := true;
      } else if c == '>' {
        tag := false;
      } else if !tag {
        Assoc(result, [c], StripTags(s[k + 1..], tag));
        result := result + [c];
      }
    }
    assert s[|s|..] == [];
  }

  /** Reading two pieces in turn is reading their concatenation. */
  lemma {:induction false} StripConcat(x: string, y: string, tag: bool)
    ensures StripTags(x + y, tag) == StripTags(x, tag) + StripTags(y, TagOpen(x, tag))
    decreases |x|
  {
    if x == [] {
      assert x + y == y;
    } else {
      assert (x + y)[0] == x[0] && (x + y)[1..] == x[1..] + y;
      var tag' := if x[0] == '<' then true else if x[0] == '>' then false else tag;
      StripConcat(x[1..], y, tag');
    }
  }

  /** Text without angle brackets passes through unchanged. */
  lemma {:induction false} StripPlain(s: string)
    requires '<' !in s && '>' !in s
    ensures StripTags(s, false) == s
    decreases |s|
  {
    if s != [] {
      assert s == [s[0]] + s[1..];
      StripPlain(s[1..]);
    }
  }

  /** Inside a tag nothing is kept until the next `>`, and that `>` closes it. */
  lemma {:induction false} InsideTag(t: string)
    requires '>' !in t
    ensures StripTags(t, true) == [] && TagOpen(t, true)
    decreases |t|
  {
    if t != [] {
      assert t[0] != '>';
      assert forall c | c in t[1..] :: c in t;
      InsideTag(t[1..]);
    }
  }

  /** A whole tag `<…>` at the front is dropped, and the flag is closed after it. */
  lemma SkipTag(t: string, q: string, tag: bool)
    requires '>' !in t
    ensures StripTags(['<'] + t + ['>'] + q, tag) == StripTags(q, false)
  {
    var v := ['>'] + q;
    assert (['<'] + t + ['>'] + q)[1..] == t + v;
    StripConcat(t, v, true);
    InsideTag(t);
    assert v[1..] == q;
  }

  /** A tag `<…>` is dropped whole, whatever precedes or follows it. */
  lemma TagDropped(p: string, t: string, q: string)
    requires '>' !in t
    ensures StripTags(p + ['<'] + t + ['>'] + q, false) == StripTags(p, false) + StripTags(q, false)
  {
    var u := ['<'] + t + ['>'] + q;
    assert p + ['<'] + t + ['>'] + q == p + u;
    StripConcat(p, u, false);
    SkipTag(t, q, TagOpen(p, false));
  }

  // ---------------------------------------------------------------------
  // Overlap

  /** The first word start at or after `i`, or the end of the text: where
      `longest_overlap` cuts the running text. */
  function StartCut(s: string, i: nat): (r: nat)
    requires i <= ByteLen(s)
    ensures i <= r <= ByteLen(s) && IsCharBoundary(s, r)
    ensures r == ByteLen(s) || WordStart(s, r)
    ensures forall m: nat | i <= m < r :: !WordStart(s, m)
    decreases ByteLen(s) - i
  {
    if WordStart(s, i) then i
    else if i == ByteLen(s) then EndIsBoundary(s); i
    else StartCut(s, i + 1)
  }

  /** The last word start at or before `i`, or 0: where `longest_overlap`
      cuts the new cue's text. */
  function EndCut(s: string, i: nat): (r: nat)
    ensures r <= i && IsCharBoundary(s, r)
    ensures r == 0 || WordStart(s, r)
    ensures forall m: nat | r < m <= i :: !WordStart(s, m)
  {
    if WordStart(s, i) || i == 0 then i else EndCut(s, i - 1)
  }

  /** The chars of `x` from position `k` on are a candidate overlap with `y`:
      they are the first bytes of `y`, and a word of `y` starts right after them. */
  predicate Cand(x: string, y: string, k: nat) {
    k < |x| && WordStart(y, ByteLen(x[k..])) && x[k..] == SliceTo(y, ByteLen(x[k..]))
  }

  /** A candidate found in the cut texts is an overlap of the whole texts. */
  lemma CandOverlap(a: string, b: string, x: string, y: string, i: nat, e: nat, k: nat)
    requires IsCharBoundary(a, i) && x == SliceFrom(a, i)
    requires IsCharBoundary(b, e) && y == SliceTo(b, e)
    requires Cand(x, y, k)
    ensures var r := ByteLen(x[k..]);
            0 < r <= ByteLen(x) <= ByteLen(a) && r < e
            && WordStart(b, r) && EndsWith(a, SliceTo(b, r))
  {
    var r := ByteLen(x[k..]);
    var c0 := CharIndex(a, i);
    assert x[k..] == a[c0 + k..];
    NonEmptyLen(x[k..]);
    assert x == x[..k] + x[k..];
    ByteLenConcat(x[..k], x[k..]);
    var c := CharIndex(b, e);
    assert b == y + b[c..];
    InteriorBoundary(y, r);
    WordStartPrefix(y, b[c..], r);
    SlicePrefix(y, b[c..], 0, r);
  }

  /** `r` is the longest candidate overlap of `x` with `y`, or 0 if there is none. */
  predicate Longest(x: string, y: string, r: nat) {
    (r > 0 ==> exists k | 0 <= k < |x| :: Cand(x, y, k) && ByteLen(x[k..]) == r)
    && forall k | 0 <= k < |x| && Cand(x, y, k) :: ByteLen(x[k..]) <= r
  }

  /** The first loop of `longest_overlap`: step forward to a word start. */
  method CutStart(a: string, i0: nat) returns (i: nat)
    requires i0 <= ByteLen(a)
    ensures i == StartCut(a, i0)
  {
    var la := ByteLen(a);
    i := i0;
    var ws := IsWordStart(a, i);
    while !ws && i < la
      invariant i0 <= i <= la
      invariant ws == WordStart(a, i)
      invariant StartCut(a, i) == StartCut(a, i0)
      decreases la - i
    {
      i := i + 1;
      ws := IsWordStart(a, i);
    }
  }

  /** The second loop of `longest_overlap`: step back to a word start. */
  method CutEnd(b: string, e0: nat) returns (e: nat)
    ensures e == EndCut(b, e0)
  {
    e := e0;
    var ws := IsWordStart(b, e);
    while !ws && e > 0
      invariant e <= e0
      invariant ws == WordStart(b, e)
      invariant EndCut(b, e) == EndCut(b, e0)
    {
      e := e - 1;
      ws := IsWordStart(b, e);
    }
  }

  /** The last loop of `longest_overlap`: the first char position of `x`
      from which a candidate overlap with `y` starts, as its length in bytes. */
  method FirstCandidate(x: string, y: string) returns (r: nat)
    ensures r <= ByteLen(x)
    ensures Longest(x, y, r)
  {
    var nx := ByteLen(x);
    var off := 0;
    for k := 0 to |x|
      invariant off == ByteLen(x[..k])
      invariant forall k' | 0 <= k' < k :: !Cand(x, y, k')
    {
      assert x == x[..k] + x[k..];
      ByteLenConcat(x[..k], x[k..]);
      var j := nx - off;
      var isw := IsWordStart(y, j);
      if isw && x[k..] == SliceTo(y, j) {
        assert Cand(x, y, k);
        forall k' | k < k' < |x| ensures ByteLen(x[k'..]) < j {
          SuffixLenStrict(x, k, k');
        }
        return j;
      }
      assert x[..k + 1] == x[..k] + [x[k]];
      ByteLenConcat(x[..k], [x[k]]);
      off := off + CharWidth(x[k]);
    }
    r := 0;
  }

  /** How many bytes `longest_overlap` keeps of each text: the shorter length. */
  function CutLen(a: string, b: string): nat
  {
    if ByteLen(a) < ByteLen(b) then ByteLen(a) else ByteLen(b)
  }

  /** The running text as `longest_overlap` cuts it before searching. */
  function CutA(a: string, b: string): string
  {
    SliceFrom(a, StartCut(a, ByteLen(a) - CutLen(a, b)))
  }

  /** The new text as `longest_overlap` cuts it before searching. */
  function CutB(a: string, b: string): string
  {
    SliceTo(b, EndCut(b, CutLen(a, b)))
  }

  /** The cut positions the loops find give the cut texts. */
  lemma CutsOf(a: string, b: string, n: nat, i: nat, e: nat)
    requires n == CutLen(a, b)
    requires i == StartCut(a, ByteLen(a) - n) && e == EndCut(b, n)
    ensures SliceFrom(a, i) == CutA(a, b) && SliceTo(b, e) == CutB(a, b)
  {
  }

  /** `longest_overlap(a, b)`: the length in bytes of the longest end of `a`
      that is also the beginning of `b`, counted only where the overlap in
      `a` begins at a word start and is followed in `b` by a word start. Both
      texts are first cut: `a` to its last `min(len a, len b)` bytes, moved
      forward to a word start, and `b` to its first that many bytes, moved
      back to a word start. */
  method LongestOverlap(a: string, b: string) returns (r: nat)
    ensures r <= ByteLen(a) && r <= ByteLen(b)
    ensures r > 0 ==> WordStart(b, r) && EndsWith(a, SliceTo(b, r))
    ensures r > 0 ==> r < ByteLen(CutB(a, b))
    ensures Longest(CutA(a, b), CutB(a, b), r)
  {
    var la, lb := ByteLen(a), ByteLen(b);
    var n := if la < lb then la else lb;
    var i := CutStart(a, la - n);
    var x := SliceFrom(a, i);
    var e := CutEnd(b, n);
    var y := SliceTo(b, e);
    r := FirstCandidate(x, y);
    CutsOf(a, b, n, i, e);
    if r > 0 {
      var k :| 0 <= k < |x| && Cand(x, y, k) && ByteLen(x[k..]) == r;
      CandOverlap(a, b, x, y, i, e, k);
    }
  }

  // ---------------------------------------------------------------------
  // The document

  /** A cue time as the document keeps it: whole seconds and milliseconds. */
  datatype CueTime = CueTime(seconds: nat, millis: nat)

  /** A cue of the document: its timings and the byte range of its text. */
  datatype DocCue = DocCue(start: CueTime, end: CueTime, from: nat, to: nat)

  /** The parsed document: its text, its one span, and its cues. */
  datatype VttDocument = VttDocument(text: string, spans: seq<(nat, nat)>, cues: seq<DocCue>)

  /** `h·3600 + m·60 + s` seconds, the milliseconds carried over. */
  function CueTimeOf(t: Vtt.Timestamp): (r: CueTime)
    ensures r.seconds * 1000 + r.millis == Vtt.Millis(t)
    ensures r.millis == t.millis
  {
    CueTime(t.hours * 3600 + t.minutes * 60 + t.seconds, t.millis)
  }

  /** The cues among the blocks, in order. */
  function CueList(blocks: seq<Vtt.Block>): seq<Vtt.Cue>
  {
    if blocks == [] then []
    else CueList(blocks[..|blocks| - 1])
         + (if blocks[|blocks| - 1].CueBlock? then [blocks[|blocks| - 1].cue] else [])
  }

  /** The text a cue contributes: its payload lines joined, tags removed. */
  function CueText(c: Vtt.Cue): string {
    StripTags(Vtt.Text(c), false)
  }

  /** The cue's range lies on boundaries of `text` and slices out `w`. */
  predicate Covers(text: string, c: DocCue, w: string) {
    IsCharBoundary(text, c.from) && IsCharBoundary(text, c.to) && c.from <= c.to
    && Slice(text, c.from, c.to) == w
  }

  /** How a cue's text begins relative to where the text stood before it:
      inside it (an overlap), right at its end (the text was empty or ended
      in a newline), or after a newline put in to separate it. */
  predicate Joined(text: string, prevEnd: nat, from: nat) {
    IsCharBoundary(text, prevEnd) && IsCharBoundary(text, from)
    && (from < prevEnd
        || (from == prevEnd && (prevEnd == 0 || EndsWith(SliceTo(text, prevEnd), "\n")))
        || (prevEnd > 0 && !EndsWith(SliceTo(text, prevEnd), "\n")
            && SliceTo(text, from) == SliceTo(text, prevEnd) + "\n"))
  }

  /** Each cue of the document has the timings of its cue in the file. */
  predicate Timed(cues: seq<DocCue>, src: seq<Vtt.Cue>) {
    |cues| == |src|
    && forall k | 0 <= k < |cues| ::
         cues[k].start == CueTimeOf(src[k].start) && cues[k].end == CueTimeOf(src[k].end)
  }

  /** Each cue's range slices out its cue's text. */
  predicate AllCovered(text: string, cues: seq<DocCue>, src: seq<Vtt.Cue>)
    requires |cues| == |src|
  {
    forall k | 0 <= k < |cues| :: Covers(text, cues[k], CueText(src[k]))
  }

  /** Each cue after the first is joined to where the previous one ended. */
  predicate AllJoined(text: string, cues: seq<DocCue>) {
    forall k | 0 < k < |cues| :: Joined(text, cues[k - 1].to, cues[k].from)
  }

  /** The first cue starts the text and the last one ends it. */
  predicate Ends(text: string, cues: seq<DocCue>) {
    (cues == [] ==> text == [])
    && (cues != [] ==> cues[0].from == 0 && cues[|cues| - 1].to == ByteLen(text))
  }

  /** The cues of the document against the cues of the file: one each, with
      the same timings, each range slicing out that cue's text, each joined
      to the text before it, the first starting and the last ending the text. */
  predicate Stitched(text: string, cues: seq<DocCue>, src: seq<Vtt.Cue>) {
    Timed(cues, src) && AllCovered(text, cues, src) && AllJoined(text, cues) && Ends(text, cues)
  }

  /** Slices and joins on the text so far survive appending to it. */
  lemma CoversExtend(text: string, ext: string, c: DocCue, w: string)
    requires Covers(text, c, w)
    ensures Covers(text + ext, c, w)
  {
    SlicePrefix(text, ext, c.from, c.to);
  }

  lemma JoinedExtend(text: string, ext: string, prevEnd: nat, from: nat)
    requires Joined(text, prevEnd, from)
    ensures Joined(text + ext, prevEnd, from)
  {
    PrefixBoundary(text, ext, prevEnd);
    PrefixBoundary(text, ext, from);
    SlicePrefix(text, ext, 0, prevEnd);
    SlicePrefix(text, ext, 0, from);
  }

  /** The text appended after a prefix is sliced out by the byte offsets of
      its two ends. */
  lemma SliceAfter(p: string, w: string)
    ensures IsCharBoundary(p + w, ByteLen(p)) && IsCharBoundary(p + w, ByteLen(p + w))
    ensures ByteLen(p + w) == ByteLen(p) + ByteLen(w)
    ensures Slice(p + w, ByteLen(p), ByteLen(p + w)) == w
  {
    var t := p + w;
    assert t[..|p|] == p && t[..|t|] == t;
    SliceChars(t, |p|, |t|);
    ByteLenConcat(p, w);
  }

  /** The bytes of a prefix of `t` cut `t` at the end of that prefix. */
  lemma SliceToPrefix(t: string, q: string)
    requires q <= t
    ensures IsCharBoundary(t, ByteLen(q)) && SliceTo(t, ByteLen(q)) == q
  {
    assert t[..|q|] == q;
    CharIndexOf(t, |q|);
  }

  /** `t` is the text after appending the cue `c` with text `w` to `text`. */
  predicate Appended(text: string, t: string, c: DocCue, w: string) {
    text <= t && Covers(t, c, w) && c.to == ByteLen(t)
    && Joined(t, ByteLen(text), c.from) && (text == [] ==> c.from == 0)
  }

  /** A cue that does not overlap the text starts where the text stood, or
      after a newline put in when the text is neither empty nor ends in one. */
  lemma StitchFresh(text: string, w: string, text1: string, t: string, c: DocCue)
    requires text1 == if text != [] && !EndsWith(text, "\n") then text + "\n" else text
    requires t == text1 + w && c.from == ByteLen(text1) && c.to == ByteLen(t)
    ensures Appended(text, t, c, w)
  {
    SliceAfter(text1, w);
    SliceToPrefix(t, text);
    SliceToPrefix(t, text1);
    if text1 != text {
      ByteLenConcat(text, "\n");
      NonEmptyLen(text);
    }
  }

  /** A cue whose first `r > 0` bytes end the text starts `r` bytes before
      the text's end, and the text then ends with all of it. */
  lemma StitchOverlap(text: string, w: string, r: nat, t: string, c: DocCue)
    requires 0 < r && WordStart(w, r) && EndsWith(text, SliceTo(w, r))
    requires r <= ByteLen(text)
    requires t == text + SliceFrom(w, r) && c.from == ByteLen(text) - r && c.to == ByteLen(t)
    ensures Appended(text, t, c, w)
  {
    var k := CharIndex(w, r);
    var p := text[..|text| - k];
    assert text == p + w[..k];
    ByteLenConcat(p, w[..k]);
    assert t == p + w;
    SliceAfter(p, w);
    SliceToPrefix(t, text);
  }

  lemma TimedStep(cues: seq<DocCue>, src: seq<Vtt.Cue>, c: DocCue, cue: Vtt.Cue)
    requires Timed(cues, src)
    requires c.start == CueTimeOf(cue.start) && c.end == CueTimeOf(cue.end)
    ensures Timed(cues + [c], src + [cue])
  {
    assert forall k | 0 <= k < |cues| :: (cues + [c])[k] == cues[k] && (src + [cue])[k] == src[k];
  }

  lemma CoveredStep(text: string, cues: seq<DocCue>, src: seq<Vtt.Cue>, ext: string,
                    c: DocCue, cue: Vtt.Cue)
    requires |cues| == |src| && AllCovered(text, cues, src)
    requires Covers(text + ext, c, CueText(cue))
    ensures AllCovered(text + ext, cues + [c], src + [cue])
  {
    var cues', src' := cues + [c], src + [cue];
    forall k | 0 <= k < |cues'| ensures Covers(text + ext, cues'[k], CueText(src'[k])) {
      if k < |cues| {
        assert cues'[k] == cues[k] && src'[k] == src[k];
        CoversExtend(text, ext, cues[k], CueText(src[k]));
      }
    }
  }

  lemma JoinedStep(text: string, cues: seq<DocCue>, ext: string, c: DocCue)
    requires AllJoined(text, cues) && Ends(text, cues)
    requires Joined(text + ext, ByteLen(text), c.from)
    ensures AllJoined(text + ext, cues + [c])
  {
    var cues' := cues + [c];
    forall k | 0 < k < |cues'| ensures Joined(text + ext, cues'[k - 1].to, cues'[k].from) {
      if k < |cues| {
        assert cues'[k - 1] == cues[k - 1] && cues'[k] == cues[k];
        JoinedExtend(text, ext, cues[k - 1].to, cues[k].from);
      } else {
        assert cues'[k - 1] == cues[|cues| - 1] && cues'[k] == c;
      }
    }
  }

  /** Appending a cue that covers the new end of the text, joined to where
      the text stood, keeps the document stitched. */
  lemma StitchedStep(text: string, cues: seq<DocCue>, src: seq<Vtt.Cue>, ext: string,
                     c: DocCue, cue: Vtt.Cue)
    requires Stitched(text, cues, src)
    requires c.start == CueTimeOf(cue.start) && c.end == CueTimeOf(cue.end)
    requires Appended(text, text + ext, c, CueText(cue))
    ensures Stitched(text + ext, cues + [c], src + [cue])
  {
    TimedStep(cues, src, c, cue);
    CoveredStep(text, cues, src, ext, c, cue);
    JoinedStep(text, cues, ext, c);
    assert (cues + [c])[0] == if cues == [] then c else cues[0];
  }

  /** The overlap a cue starting at `from` was stitched on with: the bytes
      of `text` from there when it starts inside the text, else none. */
  function OverlapUsed(text: string, from: nat): nat
  {
    if from < ByteLen(text) then ByteLen(text) - from else 0
  }

  /** The cue with text `w` starting at `from` was stitched on `text` with
      the overlap `longest_overlap` finds: the longest candidate of the cut
      texts, or none when there is no candidate. */
  predicate LongestUsed(text: string, w: string, from: nat) {
    Longest(CutA(text, w), CutB(text, w), OverlapUsed(text, from))
  }

  /** At most one overlap length is the longest. */
  lemma LongestUnique(x: string, y: string, r1: nat, r2: nat)
    requires Longest(x, y, r1) && Longest(x, y, r2)
    ensures r1 == r2
  {
    if r1 > 0 {
      var k :| 0 <= k < |x| && Cand(x, y, k) && ByteLen(x[k..]) == r1;
    }
    if r2 > 0 {
      var k :| 0 <= k < |x| && Cand(x, y, k) && ByteLen(x[k..]) == r2;
    }
  }

  /** Where the text stood before cue `k` was appended. */
  function Before(cues: seq<DocCue>, k: nat): nat
    requires k <= |cues|
  {
    if k == 0 then 0 else cues[k - 1].to
  }

  /** Each cue was stitched on the text as it stood before it with the
      longest overlap. */
  predicate AllLongest(text: string, cues: seq<DocCue>, src: seq<Vtt.Cue>) {
    |cues| == |src|
    && forall k | 0 <= k < |cues| ::
         IsCharBoundary(text, Before(cues, k))
         && LongestUsed(SliceTo(text, Before(cues, k)), CueText(src[k]), cues[k].from)
  }

  /** Appending a cue stitched with the longest overlap keeps every cue so. */
  lemma LongestStep(text: string, cues: seq<DocCue>, src: seq<Vtt.Cue>, ext: string,
                    c: DocCue, cue: Vtt.Cue)
    requires Stitched(text, cues, src) && AllLongest(text, cues, src)
    requires Appended(text, text + ext, c, CueText(cue))
    requires LongestUsed(text, CueText(cue), c.from)
    ensures AllLongest(text + ext, cues + [c], src + [cue])
  {
    var cues', src' := cues + [c], src + [cue];
    forall k | 0 <= k < |cues'|
      ensures IsCharBoundary(text + ext, Before(cues', k))
      ensures LongestUsed(SliceTo(text + ext, Before(cues', k)), CueText(src'[k]), cues'[k].from)
    {
      if k < |cues| {
        assert cues'[k] == cues[k] && src'[k] == src[k];
        assert Before(cues', k) == Before(cues, k) by {
          if k > 0 { assert cues'[k - 1] == cues[k - 1]; }
        }
        if k > 0 {
          assert Covers(text, cues[k - 1], CueText(src[k - 1]));
        }
        SlicePrefix(text, ext, 0, Before(cues, k));
      } else {
        assert Before(cues', k) == ByteLen(text) by {
          if k > 0 { assert cues'[k - 1] == cues[|cues| - 1]; }
        }
        SliceToPrefix(text + ext, text);
      }
    }
  }

  /** `t` and `c` are `text` with the cue appended: the cue's timings, its
      text stitched on with the longest overlap. */
  predicate CueAppended(text: string, t: string, c: DocCue, cue: Vtt.Cue) {
    c.start == CueTimeOf(cue.start) && c.end == CueTimeOf(cue.end)
    && Appended(text, t, c, CueText(cue))
    && LongestUsed(text, CueText(cue), c.from)
  }

  /** The body of `parse_document`'s loop for one cue: the new text, and
      the cue with its range in it, stitched on with the longest overlap. */
  method AppendCue(text: string, cue: Vtt.Cue) returns (t: string, c: DocCue)
    ensures CueAppended(text, t, c, cue)
  {
    var start := CueTimeOf(cue.start);
    var end := CueTimeOf(cue.end);
    var w := RemoveTags(Vtt.Text(cue));
    var overlap := LongestOverlap(text, w);
    var text1 := text;
    if overlap == 0 && text != [] && !EndsWith(text, "\n") {
      text1 := text + "\n";
      ByteLenConcat(text, "\n");
    }
    var from := ByteLen(text1) - overlap;
    t := text1 + SliceFrom(w, overlap);
    c := DocCue(start, end, from, ByteLen(t));
    if overlap == 0 {
      assert SliceFrom(w, 0) == w;
      StitchFresh(text, w, text1, t, c);
      UsedNone(CutA(text, w), CutB(text, w), text, from);
    } else {
      StitchOverlap(text, w, overlap, t, c);
      UsedSome(CutA(text, w), CutB(text, w), text, overlap);
    }
  }

  /** The overlap found is the one a cue starting at `from` was stitched
      on with: none when it starts at or past the end of the text. */
  lemma UsedNone(x: string, y: string, text: string, from: nat)
    requires Longest(x, y, 0) && from >= ByteLen(text)
    ensures Longest(x, y, OverlapUsed(text, from))
  {
  }

  /** ... and `r` when it starts `r` bytes before the end. */
  lemma UsedSome(x: string, y: string, text: string, r: nat)
    requires 0 < r <= ByteLen(text) && Longest(x, y, r)
    ensures Longest(x, y, OverlapUsed(text, ByteLen(text) - r))
  {
  }

  /** The state of `parse_document`'s loop: the cues stitched on the text,
      each with the longest overlap. */
  predicate Built(text: string, cues: seq<DocCue>, src: seq<Vtt.Cue>) {
    Stitched(text, cues, src) && AllLongest(text, cues, src)
  }

  lemma BuiltStep(text: string, cues: seq<DocCue>, src: seq<Vtt.Cue>, t: string,
                  c: DocCue, cue: Vtt.Cue)
    requires Built(text, cues, src)
    requires CueAppended(text, t, c, cue)
    ensures Built(t, cues + [c], src + [cue])
  {
    var ext := t[|text|..];
    assert t == text + ext;
    LongestStep(text, cues, src, ext, c, cue);
    StitchedStep(text, cues, src, ext, c, cue);
  }

  lemma CueListStep(blocks: seq<Vtt.Block>, k: nat)
    requires k < |blocks|
    ensures CueList(blocks[..k + 1])
            == CueList(blocks[..k]) + (if blocks[k].CueBlock? then [blocks[k].cue] else [])
  {
    assert blocks[..k + 1][..k] == blocks[..k];
  }

  /** `parse_document` over the file's blocks: every cue's text, with tags
      removed, is appended to the running text after its overlap with it, a
      newline first separating it when there is no overlap and the text
      neither is empty nor ends in one; the document has one span, the
      whole text. */
  method ParseDocument(blocks: seq<Vtt.Block>) returns (doc: VttDocument)
    ensures Stitched(doc.text, doc.cues, CueList(blocks))
    ensures AllLongest(doc.text, doc.cues, CueList(blocks))
    ensures doc.spans == [(0, ByteLen(doc.text))]
  {
    var text := "";
    var cues := [];
    for k := 0 to |blocks|
      invariant Built(text, cues, CueList(blocks[..k]))
    {
      CueListStep(blocks, k);
      if blocks[k].CueBlock? {
        var t, c := AppendCue(text, blocks[k].cue);
        BuiltStep(text, cues, CueList(blocks[..k]), t, c, blocks[k].cue);
        text := t;
        cues := cues + [c];
      }
    }
    assert blocks[..|blocks|] == blocks;
    doc := VttDocument(text, [(0, ByteLen(text))], cues);
  }

  // ---------------------------------------------------------------------
  // Cue times as text

  /** `fmt_cue_time`: the seconds split into hours, minutes and seconds,
      written as a clock. */
  function FmtCueTime(t: CueTime): string
  {
    var x := t.seconds;
    var sec := x % 60;
    var x' := x / 60;
    Clock(x' / 60, x' % 60, sec, t.millis)
  }

  /** `mm:ss.mmm`, zero-padded, after `hh:` when there is at least one hour. */
  function Clock(h: nat, m: nat, s: nat, ms: nat): string
  {
    (if h > 0 then PadZero(h, 2) + ":" else "")
    + (PadZero(m, 2) + ":" + (PadZero(s, 2) + "." + PadZero(ms, 3)))
  }

  predicate AllDigits(s: string) {
    forall k | 0 <= k < |s| :: '0' <= s[k] <= '9'
  }

  /** The value of a string of decimal digits. */
  function Decimal(s: string): nat
    requires AllDigits(s)
  {
    if s == [] then 0 else 10 * Decimal(s[..|s| - 1]) + (s[|s| - 1] as int - '0' as int)
  }

  /** Reads a time written as `[hh:]mm:ss.mmm` back, or `None` if the text
      does not have that shape. */
  function ReadCueTime(s: string): Option<CueTime>
  {
    ReadFields(Split(s, ':'))
  }

  /** The time in the `:`-separated fields `[hh, ]mm, ss.mmm`. */
  function ReadFields(parts: seq<string>): Option<CueTime>
  {
    if |parts| < 2 || |parts| > 3 then None
    else
      var h := if |parts| == 3 then parts[0] else "0";
      var m := parts[|parts| - 2];
      match SplitOnce(parts[|parts| - 1], '.')
      case None => None
      case Some((sec, ms)) =>
        if AllDigits(h) && AllDigits(m) && AllDigits(sec) && AllDigits(ms) then
          Some(CueTime(Decimal(h) * 3600 + Decimal(m) * 60 + Decimal(sec), Decimal(ms)))
        else None
  }

  lemma {:induction false} DecimalOfNat(n: nat)
    ensures AllDigits(NatToString(n)) && Decimal(NatToString(n)) == n
    decreases n
  {
    var d := NatToString(n);
    if n >= 10 {
      DecimalOfNat(n / 10);
      assert d[..|d| - 1] == NatToString(n / 10);
    }
  }

  /** Leading zeros do not change the value. */
  lemma {:induction false} DecimalZeros(z: string, s: string)
    requires forall k | 0 <= k < |z| :: z[k] == '0'
    requires AllDigits(s)
    ensures AllDigits(z + s) && Decimal(z + s) == Decimal(s)
    decreases |s|, |z|
  {
    if s != [] {
      assert (z + s)[..|z + s| - 1] == z + s[..|s| - 1];
      DecimalZeros(z, s[..|s| - 1]);
    } else if z != [] {
      assert z + s == z;
      assert z[..|z| - 1] + [] == z[..|z| - 1];
      DecimalZeros(z[..|z| - 1], []);
    } else {
      assert z + s == [];
    }
  }

  lemma DecimalPad(n: nat, w: nat)
    ensures AllDigits(PadZero(n, w)) && Decimal(PadZero(n, w)) == n
    ensures ':' !in PadZero(n, w) && '.' !in PadZero(n, w)
  {
    var d, r := NatToString(n), PadZero(n, w);
    DecimalOfNat(n);
    var z := r[..|r| - |d|];
    assert r == z + d;
    DecimalZeros(z, d);
  }

  /** The `:`-separated fields of a clock. */
  function ClockFields(h: nat, m: nat, s: nat, ms: nat): seq<string>
  {
    (if h > 0 then [PadZero(h, 2)] else []) + [PadZero(m, 2), PadZero(s, 2) + "." + PadZero(ms, 3)]
  }

  lemma JoinClock(hs: seq<string>, mm: string, last: string)
    requires |hs| <= 1
    ensures Join(hs + [mm, last], ':') == (if hs != [] then hs[0] + ":" else "") + (mm + ":" + last)
  {
    assert Join([last], ':') == last;
    assert Join([mm, last], ':') == mm + ":" + last;
    if hs != [] {
      assert (hs + [mm, last])[1..] == [mm, last];
    } else {
      assert hs + [mm, last] == [mm, last];
    }
  }

  lemma ClockIsJoin(h: nat, m: nat, s: nat, ms: nat)
    ensures Clock(h, m, s, ms) == Join(ClockFields(h, m, s, ms), ':')
  {
    var hs := if h > 0 then [PadZero(h, 2)] else [];
    JoinClock(hs, PadZero(m, 2), PadZero(s, 2) + "." + PadZero(ms, 3));
  }

  /** A field written by `PadZero` holds neither separator. */
  lemma PadPlain(n: nat, w: nat)
    ensures ':' !in PadZero(n, w) && '.' !in PadZero(n, w)
  {
    DecimalPad(n, w);
  }

  lemma FieldsPlain(hs: seq<string>, mm: string, ss: string, mss: string)
    requires forall k | 0 <= k < |hs| :: ':' !in hs[k]
    requires ':' !in mm && ':' !in ss && ':' !in mss
    ensures forall k | 0 <= k < |hs + [mm, ss + "." + mss]| :: ':' !in (hs + [mm, ss + "." + mss])[k]
  {
  }

  /** No field of a clock holds the separator. */
  lemma ClockFieldsPlain(h: nat, m: nat, s: nat, ms: nat)
    ensures forall k | 0 <= k < |ClockFields(h, m, s, ms)| :: ':' !in ClockFields(h, m, s, ms)[k]
  {
    PadPlain(h, 2);
    PadPlain(m, 2);
    PadPlain(s, 2);
    PadPlain(ms, 3);
    FieldsPlain(if h > 0 then [PadZero(h, 2)] else [], PadZero(m, 2), PadZero(s, 2), PadZero(ms, 3));
  }

  /** Digits hold neither separator. */
  lemma DigitsPlain(s: string)
    requires AllDigits(s)
    ensures ':' !in s && '.' !in s
  {
  }

  /** Reading fields of digits gives their values back. */
  lemma ReadDigitFields(hs: seq<string>, mm: string, ss: string, mss: string)
    requires |hs| <= 1 && (hs != [] ==> AllDigits(hs[0]))
    requires AllDigits(mm) && AllDigits(ss) && AllDigits(mss)
    ensures ReadFields(hs + [mm, ss + "." + mss]).Some?
    ensures ReadFields(hs + [mm, ss + "." + mss]).value.millis == Decimal(mss)
    ensures ReadFields(hs + [mm, ss + "." + mss]).value.seconds
            == (if hs != [] then Decimal(hs[0]) else 0) * 3600 + Decimal(mm) * 60 + Decimal(ss)
  {
    if hs == [] {
      assert hs + [mm, ss + "." + mss] == [mm, ss + "." + mss];
      ReadTwo(mm, ss, mss);
    } else {
      assert hs + [mm, ss + "." + mss] == [hs[0], mm, ss + "." + mss];
      ReadThree(hs[0], mm, ss, mss);
    }
  }

  lemma ReadTwo(mm: string, ss: string, mss: string)
    requires AllDigits(mm) && AllDigits(ss) && AllDigits(mss)
    ensures ReadFields([mm, ss + "." + mss]).Some?
    ensures ReadFields([mm, ss + "." + mss]).value.millis == Decimal(mss)
    ensures ReadFields([mm, ss + "." + mss]).value.seconds == Decimal(mm) * 60 + Decimal(ss)
  {
    DigitsPlain(ss);
    SplitOnceOf(ss, mss, '.');
    var parts := [mm, ss + "." + mss];
    assert parts[|parts| - 2] == mm;
    assert SplitOnce(parts[|parts| - 1], '.') == Some((ss, mss));
    assert AllDigits("0") && Decimal("0") == 0 by { assert "0"[..0] == ""; }
  }

  lemma ReadThree(hh: string, mm: string, ss: string, mss: string)
    requires AllDigits(hh) && AllDigits(mm) && AllDigits(ss) && AllDigits(mss)
    ensures ReadFields([hh, mm, ss + "." + mss]).Some?
    ensures ReadFields([hh, mm, ss + "." + mss]).value.millis == Decimal(mss)
    ensures ReadFields([hh, mm, ss + "." + mss]).value.seconds
            == Decimal(hh) * 3600 + Decimal(mm) * 60 + Decimal(ss)
  {
    DigitsPlain(ss);
    SplitOnceOf(ss, mss, '.');
    var parts := [hh, mm, ss + "." + mss];
    assert parts[0] == hh && parts[1] == mm && parts[2] == ss + "." + mss;
  }

  /** Splitting a clock's text gives its fields. */
  lemma SplitFields(hs: seq<string>, mm: string, ss: string, mss: string)
    requires |hs| <= 1 && (hs != [] ==> AllDigits(hs[0]))
    requires AllDigits(mm) && AllDigits(ss) && AllDigits(mss)
    ensures Split(Join(hs + [mm, ss + "." + mss], ':'), ':') == hs + [mm, ss + "." + mss]
  {
    if hs != [] { DigitsPlain(hs[0]); }
    DigitsPlain(mm);
    DigitsPlain(ss);
    DigitsPlain(mss);
    FieldsPlain(hs, mm, ss, mss);
    SplitJoin(hs + [mm, ss + "." + mss], ':');
  }

  /** Reading a clock gives back its time in seconds and its milliseconds. */
  lemma ReadClock(h: nat, m: nat, s: nat, ms: nat)
    ensures var r := ReadCueTime(Clock(h, m, s, ms));
            r.Some? && r.value.seconds == h * 3600 + m * 60 + s && r.value.millis == ms
  {
    ClockIsJoin(h, m, s, ms);
    DecimalPad(h, 2);
    DecimalPad(m, 2);
    DecimalPad(s, 2);
    DecimalPad(ms, 3);
    var hs := if h > 0 then [PadZero(h, 2)] else [];
    SplitFields(hs, PadZero(m, 2), PadZero(s, 2), PadZero(ms, 3));
    ReadDigitFields(hs, PadZero(m, 2), PadZero(s, 2), PadZero(ms, 3));
  }

  lemma SecondsSplit(x: nat)
    ensures x == (x / 60 / 60) * 3600 + (x / 60 % 60) * 60 + x % 60
  {
  }

  /** Reading a formatted time gives it back. */
  lemma CueTimeRoundTrip(t: CueTime)
    ensures ReadCueTime(FmtCueTime(t)) == Some(t)
  {
    var x := t.seconds;
    var h, m, sec := x / 60 / 60, x / 60 % 60, x % 60;
    assert FmtCueTime(t) == Clock(h, m, sec, t.millis);
    ReadClock(h, m, sec, t.millis);
    SecondsSplit(x);
    var r := ReadCueTime(FmtCueTime(t));
    assert r.value.seconds == t.seconds && r.value.millis == t.millis;
  }

  lemma ClockSplit(h: nat, m: nat, s: nat, ms: nat)
    ensures Split(Clock(h, m, s, ms), ':') == ClockFields(h, m, s, ms)
  {
    ClockIsJoin(h, m, s, ms);
    ClockFieldsPlain(h, m, s, ms);
    SplitJoin(ClockFields(h, m, s, ms), ':');
  }

  lemma TwoDigits(n: nat)
    requires n < 100
    ensures |PadZero(n, 2)| == 2
  {
    if n >= 10 {
      assert |NatToString(n / 10)| == 1;
    }
  }

  /** The written minutes and seconds are two digits each, the milliseconds
      at least three, and the hours field is there exactly when there is at
      least one whole hour. */
  lemma CueTimeFields(t: CueTime)
    ensures var parts := Split(FmtCueTime(t), ':');
            |parts| == (if t.seconds >= 3600 then 3 else 2)
            && |parts[|parts| - 2]| == 2 && |parts[|parts| - 1]| >= 6
  {
    var x := t.seconds;
    var h, m, sec := x / 60 / 60, x / 60 % 60, x % 60;
    assert FmtCueTime(t) == Clock(h, m, sec, t.millis);
    ClockSplit(h, m, sec, t.millis);
    assert h > 0 <==> x >= 3600;
    TwoDigits(m);
    TwoDigits(sec);
    assert |PadZero(t.millis, 3)| >= 3;
  }

  /** `parts` are the ':'-separated fields of a time written from `h`, `m`,
      `s` and `ms`: an hours field only when `h > 0`, then two ASCII digits
      of minutes, then two of seconds, a '.', and the milliseconds, each
      reading back to its value. */
  ghost predicate FieldsRead(parts: seq<string>, h: nat, m: nat, s: nat, ms: nat) {
    && |parts| == (if h > 0 then 3 else 2)
    && (h > 0 ==> AllDigits(parts[0]) && Decimal(parts[0]) == h)
    && var mm, last := parts[|parts| - 2], parts[|parts| - 1];
    && |mm| == 2 && AllDigits(mm) && Decimal(mm) == m
    && |last| >= 6 && last[2] == '.'
    && AllDigits(last[..2]) && Decimal(last[..2]) == s
    && AllDigits(last[3..]) && Decimal(last[3..]) == ms
  }

  /** The fields of a written time read back: the hours (when written) are
      the whole hours, the minutes and seconds of the hour are two digits
      each and below 60, and the digits after the '.' are the milliseconds. */
  lemma CueTimeFieldValues(t: CueTime)
    ensures t.seconds / 60 % 60 < 60 && t.seconds % 60 < 60
    ensures FieldsRead(Split(FmtCueTime(t), ':'), t.seconds / 60 / 60, t.seconds / 60 % 60, t.seconds % 60, t.millis)
  {
    var x := t.seconds;
    assert FmtCueTime(t) == Clock(x / 60 / 60, x / 60 % 60, x % 60, t.millis);
    ClockFieldValues(x / 60 / 60, x / 60 % 60, x % 60, t.millis);
  }

  lemma ClockFieldValues(h: nat, m: nat, s: nat, ms: nat)
    requires m < 60 && s < 60
    ensures FieldsRead(Split(Clock(h, m, s, ms), ':'), h, m, s, ms)
  {
    ClockSplit(h, m, s, ms);
    var fields := ClockFields(h, m, s, ms);
    var last := PadZero(s, 2) + "." + PadZero(ms, 3);
    assert fields[|fields| - 2] == PadZero(m, 2) && fields[|fields| - 1] == last;
    TwoDigits(m);
    DecimalPad(m, 2);
    if h > 0 {
      DecimalPad(h, 2);
    }
    SecondsFieldRead(s, ms);
  }

  lemma SecondsFieldRead(s: nat, ms: nat)
    requires s < 60
    ensures var last := PadZero(s, 2) + "." + PadZero(ms, 3);
      && |last| >= 6 && last[2] == '.'
      && AllDigits(last[..2]) && Decimal(last[..2]) == s
      && AllDigits(last[3..]) && Decimal(last[3..]) == ms
  {
    TwoDigits(s);
    DecimalPad(s, 2);
    DecimalPad(ms, 3);
    PadWidth(ms, 3);
    DotPieces(PadZero(s, 2), PadZero(ms, 3));
  }

  lemma PadWidth(n: nat, w: nat)
    ensures |PadZero(n, w)| >= w
  {
  }

  lemma DotPieces(a: string, b: string)
    requires |a| == 2
    ensures var last := a + "." + b;
      |last| == |b| + 3 && last[..2] == a && last[2] == '.' && last[3..] == b
  {
  }
}
