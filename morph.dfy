/** The dispatch and merge layer over the segmenters (src/morph/mod.rs):
    `Morph::parse` picks the alphabetic or the Korean segmenter, and
    `analyze_document` segments each span of a document, attaches the
    stored words to every segment and keys the segments by start offset. */
module Morph {
  import opened Common
  import opened Utf8
  import opened Pattern
  import opened KoreanReduce
  import opened KoreanSegment
  import Dict
  import Alpha

  // ---------------------------------------------------------------------
  // Offsets

  /** `Segment::with_offset`: moves both ends of the range by `delta`. */
  function WithOffset(seg: Segment, delta: nat): (r: Segment)
    ensures r.range.start == seg.range.start + delta && r.range.end == seg.range.end + delta
    ensures r.text == seg.text && r.words == seg.words
  {
    Segment(Range(seg.range.start + delta, seg.range.end + delta), seg.text, seg.words)
  }

  /** Shifting by one offset and then another is shifting by their sum, and
      shifting by nothing changes nothing. */
  lemma WithOffsetAdd(seg: Segment, d: nat, e: nat)
    ensures WithOffset(WithOffset(seg, d), e) == WithOffset(seg, d + e)
    ensures WithOffset(seg, 0) == seg
  {
  }

  /** A segment cut out of the span `span` of `text`, shifted by the span's
      start, addresses the same text in the whole of `text`, and stays
      inside the span. */
  lemma ShiftIntoSpan(text: string, span: Range, sub: string, seg: Segment, r: Segment)
    requires IsCharBoundary(text, span.start) && IsCharBoundary(text, span.end)
    requires span.start <= span.end && sub == Slice(text, span.start, span.end)
    requires IsCharBoundary(sub, seg.range.start) && IsCharBoundary(sub, seg.range.end)
    requires seg.range.start <= seg.range.end
    requires seg.text == Slice(sub, seg.range.start, seg.range.end)
    requires r == WithOffset(seg, span.start)
    ensures IsCharBoundary(text, r.range.start) && IsCharBoundary(text, r.range.end)
    ensures span.start <= r.range.start <= r.range.end <= span.end
    ensures r.text == Slice(text, r.range.start, r.range.end)
  {
    var i, j := seg.range.start, seg.range.end;
    SliceOfSlice(text, span.start, span.end, i, j, r.range.start, r.range.end);
  }

  // ---------------------------------------------------------------------
  // Dispatch

  /** The configured segmenter. */
  datatype Morph = Alphabetic | Korean(parser: Parser)

  /** Every segment's range lies inside the first `n` bytes. */
  predicate Within(segs: seq<Segment>, n: nat) {
    forall k | 0 <= k < |segs| :: segs[k].range.start <= segs[k].range.end <= n
  }

  /** Segments that tile `[a, b)` lie inside it. */
  lemma {:induction false} TilesWithin(segs: seq<Segment>, a: nat, b: nat)
    requires SegmentsTile(segs, a, b)
    ensures a <= b && forall k | 0 <= k < |segs| :: a <= segs[k].range.start <= segs[k].range.end <= b
    decreases |segs|
  {
    if segs != [] {
      TilesWithin(segs[1..], segs[0].range.end, b);
      assert forall k | 1 <= k < |segs| :: segs[k] == segs[1..][k - 1];
    }
  }

  /** What the segmenter needs: the alphabet table must not call the
      closing '.' alphabetic, and the Korean lexer must deliver its tokens
      in order on char boundaries. */
  predicate Ready(morph: Morph, isAlpha: char -> bool, text: string, lexer: seq<LexerToken>) {
    (morph.Alphabetic? ==> !isAlpha('.'))
    && (morph.Korean? ==> InOrder(text, lexer, 0))
  }

  /** `Morph::parse`: the alphabetic segmenter never fails and yields maximal
      alphabetic runs covering every alphabetic char; the Korean one is the
      token-queue segmenter over the lexer's tokens. Either way the segments
      lie inside the text. */
  method Parse(morph: Morph, isAlpha: char -> bool, text: string, lexer: seq<LexerToken>)
    returns (r: Result<seq<Segment>>)
    requires Ready(morph, isAlpha, text, lexer)
    requires morph.Korean? ==> ValidParser(morph.parser)
    ensures morph.Alphabetic? ==> r.Ok? && Alpha.AllRuns(text, isAlpha, r.value) && Alpha.Increasing(r.value)
    ensures morph.Alphabetic? ==> forall m | 0 <= m < |text| && isAlpha(text[m]) :: Alpha.Covered(text, isAlpha, r.value, m)
    ensures morph.Korean? ==> r == KoreanSegment.Parse(morph.parser, text, lexer)
    ensures r.Ok? ==> Within(r.value, ByteLen(text))
  {
    match morph {
      case Alphabetic =>
        var segs := Alpha.Parse(text, isAlpha);
        forall k | 0 <= k < |segs|
          ensures segs[k].range.start <= segs[k].range.end <= ByteLen(text)
        {
          assert Alpha.Run(text, isAlpha, segs[k]);
          BoundaryBound(text, segs[k].range.end);
        }
        r := Ok(segs);
      case Korean(parser) =>
        r := KoreanSegment.Parse(parser, text, lexer);
        if r.Ok? {
          ParseTiles(parser, text, lexer);
          TilesWithin(r.value, 0, ByteLen(text));
        }
    }
  }

  /** `parsed` is what the configured segmenter makes of `text`: maximal
      alphabetic runs, in order and covering every alphabetic char, or the
      Korean segmenter's successful result. */
  ghost predicate ParsedBy(morph: Morph, isAlpha: char -> bool, text: string, lexer: seq<LexerToken>,
                           parsed: seq<Segment>) {
    match morph
    case Alphabetic =>
      Alpha.AllRuns(text, isAlpha, parsed) && Alpha.Increasing(parsed)
      && forall m | 0 <= m < |text| && isAlpha(text[m]) :: Alpha.Covered(text, isAlpha, parsed, m)
    case Korean(parser) =>
      ValidParser(parser) && InOrder(text, lexer, 0) && KoreanSegment.Parse(parser, text, lexer) == Ok(parsed)
  }

  // ---------------------------------------------------------------------
  // Merging stored words into a segment

  /** A word the segmenter proposed is kept unless it is its own parent, and
      only when the store knows nothing of the text or the word has a
      translation. */
  predicate Keep(w: Dict.Word, storeEmpty: bool) {
    w.text !in w.parents && (storeEmpty || w.translation != [])
  }

  /** The proposed words that are kept, in order. */
  function Kept(ws: seq<Dict.Word>, storeEmpty: bool): seq<Dict.Word>
    decreases |ws|
  {
    if ws == [] then []
    else
      var init := Kept(ws[..|ws| - 1], storeEmpty);
      if Keep(ws[|ws| - 1], storeEmpty) then init + [ws[|ws| - 1]] else init
  }

  /** A word is kept exactly when it was proposed and passes `Keep`. */
  lemma {:induction false} KeptMembers(ws: seq<Dict.Word>, storeEmpty: bool, w: Dict.Word)
    ensures w in Kept(ws, storeEmpty) <==> w in ws && Keep(w, storeEmpty)
    decreases |ws|
  {
    if ws != [] {
      var init := ws[..|ws| - 1];
      KeptMembers(init, storeEmpty, w);
      assert ws == init + [ws[|ws| - 1]];
    }
  }

  /** With every proposal passing, nothing is dropped and the order is kept. */
  lemma {:induction false} KeptAll(ws: seq<Dict.Word>, storeEmpty: bool)
    requires forall k | 0 <= k < |ws| :: Keep(ws[k], storeEmpty)
    ensures Kept(ws, storeEmpty) == ws
    decreases |ws|
  {
    if ws != [] {
      KeptAll(ws[..|ws| - 1], storeEmpty);
    }
  }

  /** The words `analyze_document` gives a segment: the store's words for its
      text, in order, then the kept proposals. */
  method MergeWords(found: seq<Dict.Word>, proposed: seq<Dict.Word>) returns (words: seq<Dict.Word>)
    ensures words == found + Kept(proposed, found == [])
  {
    words := found;
    var storeEmpty := found == [];
    for k := 0 to |proposed|
      invariant words == found + Kept(proposed[..k], storeEmpty)
    {
      var w := proposed[k];
      assert proposed[..k + 1][..k] == proposed[..k];
      if w.text !in w.parents && (storeEmpty || w.translation != []) {
        words := words + [w];
      }
    }
    assert proposed[..|proposed|] == proposed;
  }

  // ---------------------------------------------------------------------
  // Keying by start offset

  /** `BTreeMap::from_iter` over `(range.start, segment)` pairs: inserted in
      order, so a later segment with the same start replaces an earlier one. */
  function KeyByStart(segs: seq<Segment>): map<nat, Segment>
    decreases |segs|
  {
    if segs == [] then map[]
    else KeyByStart(segs[..|segs| - 1])[segs[|segs| - 1].range.start := segs[|segs| - 1]]
  }

  /** The keys are the starts, and each key holds the last segment with that
      start. */
  lemma {:induction false} KeyByStartLast(segs: seq<Segment>, j: nat)
    requires j < |segs|
    requires forall l | j < l < |segs| :: segs[l].range.start != segs[j].range.start
    ensures segs[j].range.start in KeyByStart(segs)
    ensures KeyByStart(segs)[segs[j].range.start] == segs[j]
    decreases |segs|
  {
    if j < |segs| - 1 {
      KeyByStartLast(segs[..|segs| - 1], j);
    }
  }

  /** Every key holds a segment of the list starting at that key. */
  lemma {:induction false} KeyByStartValues(segs: seq<Segment>, key: nat)
    requires key in KeyByStart(segs)
    ensures KeyByStart(segs)[key] in segs && KeyByStart(segs)[key].range.start == key
    decreases |segs|
  {
    var last := segs[|segs| - 1];
    if key != last.range.start {
      KeyByStartValues(segs[..|segs| - 1], key);
    }
  }

  // ---------------------------------------------------------------------
  // Analysing a document

  /** A document: its text, the byte spans to analyse, and the segment
      table once one has been attached. */
  datatype Document = Document(text: string, spans: seq<Range>, segments: Option<map<nat, Segment>>)

  /** Slicing the text at each span must not panic. */
  predicate SpansValid(doc: Document) {
    forall k | 0 <= k < |doc.spans| ::
      IsCharBoundary(doc.text, doc.spans[k].start) && IsCharBoundary(doc.text, doc.spans[k].end)
      && doc.spans[k].start <= doc.spans[k].end
  }

  /** The text of span `k`. */
  function SpanText(doc: Document, k: nat): string
    requires SpansValid(doc) && k < |doc.spans|
  {
    Slice(doc.text, doc.spans[k].start, doc.spans[k].end)
  }

  /** The segment lies inside a span that is not all whitespace. */
  predicate Placed(doc: Document, seg: Segment)
    requires SpansValid(doc)
  {
    exists k | 0 <= k < |doc.spans| ::
      Trim(SpanText(doc, k)) != []
      && doc.spans[k].start <= seg.range.start <= seg.range.end <= doc.spans[k].end
  }

  /** The segment's words start with everything the store holds for its
      text, and every word after those is one `Keep` lets through. */
  predicate Merged(store: Dict.Store, seg: Segment) {
    var found := Dict.FindWords(store, seg.text);
    |found| <= |seg.words| && seg.words[..|found|] == found
    && forall k | |found| <= k < |seg.words| :: Keep(seg.words[k], found == [])
  }

  /** The segment's text is the document text at its range. */
  predicate Sliced(doc: Document, seg: Segment) {
    IsCharBoundary(doc.text, seg.range.start) && IsCharBoundary(doc.text, seg.range.end)
    && seg.range.start <= seg.range.end
    && seg.text == Slice(doc.text, seg.range.start, seg.range.end)
  }

  /** What `analyze_document` promises of each segment it stores. */
  predicate Analysed(doc: Document, store: Dict.Store, alphabetic: bool, seg: Segment)
    requires SpansValid(doc)
  {
    Placed(doc, seg) && Merged(store, seg) && (alphabetic ==> Sliced(doc, seg))
  }

  /** Merging a segment's words keeps what `Merged` states. */
  lemma MergedWords(store: Dict.Store, seg: Segment, words: seq<Dict.Word>)
    requires words == Dict.FindWords(store, seg.text) + Kept(seg.words, Dict.FindWords(store, seg.text) == [])
    ensures Merged(store, Segment(seg.range, seg.text, words))
  {
    var found := Dict.FindWords(store, seg.text);
    assert words[..|found|] == found;
    forall k | |found| <= k < |words|
      ensures Keep(words[k], found == [])
    {
      KeptMembers(seg.words, found == [], words[k]);
    }
  }

  /** What `analyze_document` makes of a parsed segment of a span starting
      at `off`: its range moved by `off`, its text, and the store's words for
      the text followed by the kept proposals. */
  function MergedSegment(store: Dict.Store, off: nat, seg: Segment): Segment {
    var found := Dict.FindWords(store, seg.text);
    Segment(WithOffset(seg, off).range, seg.text, found + Kept(seg.words, found == []))
  }

  /** `MergedSegment` of every parsed segment, in order. */
  function MergedSegments(store: Dict.Store, off: nat, parsed: seq<Segment>): seq<Segment>
    decreases |parsed|
  {
    if parsed == [] then []
    else MergedSegments(store, off, parsed[..|parsed| - 1]) + [MergedSegment(store, off, parsed[|parsed| - 1])]
  }

  /** One segment of span `k`, shifted to document offsets and given the
      store's words for its text followed by its kept proposals. */
  method AnalyzeSegment(doc: Document, k: nat, seg: Segment, alphabetic: bool, store: Dict.Store)
    returns (r: Segment)
    requires SpansValid(doc) && k < |doc.spans| && Trim(SpanText(doc, k)) != []
    requires seg.range.start <= seg.range.end <= ByteLen(SpanText(doc, k))
    requires alphabetic ==>
      IsCharBoundary(SpanText(doc, k), seg.range.start) && IsCharBoundary(SpanText(doc, k), seg.range.end)
      && seg.text == Slice(SpanText(doc, k), seg.range.start, seg.range.end)
    ensures r == MergedSegment(store, doc.spans[k].start, seg)
    ensures Analysed(doc, store, alphabetic, r)
  {
    var span := doc.spans[k];
    var shifted := WithOffset(seg, span.start);
    if alphabetic {
      ShiftIntoSpan(doc.text, span, SpanText(doc, k), seg, shifted);
    }
    var words := Dict.FindWords(store, shifted.text);
    var merged := MergeWords(words, shifted.words);
    MergedWords(store, shifted, merged);
    r := Segment(shifted.range, shifted.text, merged);
    assert Placed(doc, r);
  }

  /** A segment the span's parser returned meets what `AnalyzeSegment` needs. */
  lemma ParsedFits(text: string, alphabetic: bool, isAlpha: char -> bool, parsed: seq<Segment>, l: nat)
    requires l < |parsed| && Within(parsed, ByteLen(text))
    requires alphabetic ==> Alpha.AllRuns(text, isAlpha, parsed)
    ensures parsed[l].range.start <= parsed[l].range.end <= ByteLen(text)
    ensures alphabetic ==>
      IsCharBoundary(text, parsed[l].range.start) && IsCharBoundary(text, parsed[l].range.end)
      && parsed[l].text == Slice(text, parsed[l].range.start, parsed[l].range.end)
  {
    if alphabetic {
      assert Alpha.Run(text, isAlpha, parsed[l]);
    }
  }

  lemma AnalysedPush(doc: Document, store: Dict.Store, alphabetic: bool, segs: seq<Segment>, seg: Segment)
    requires SpansValid(doc)
    requires forall m | 0 <= m < |segs| :: Analysed(doc, store, alphabetic, segs[m])
    requires Analysed(doc, store, alphabetic, seg)
    ensures forall m | 0 <= m < |segs + [seg]| :: Analysed(doc, store, alphabetic, (segs + [seg])[m])
  {
    forall m | 0 <= m < |segs + [seg]| ensures Analysed(doc, store, alphabetic, (segs + [seg])[m]) {
      if m < |segs| { assert (segs + [seg])[m] == segs[m]; }
    }
  }

  /** The loop over the segments of span `k` that the parser returned. */
  method AnalyzeParsed(doc: Document, k: nat, parsed: seq<Segment>, alphabetic: bool,
                       ghost isAlpha: char -> bool, store: Dict.Store)
    returns (segs: seq<Segment>)
    requires SpansValid(doc) && k < |doc.spans| && Trim(SpanText(doc, k)) != []
    requires Within(parsed, ByteLen(SpanText(doc, k)))
    requires alphabetic ==> Alpha.AllRuns(SpanText(doc, k), isAlpha, parsed)
    ensures segs == MergedSegments(store, doc.spans[k].start, parsed)
    ensures forall l | 0 <= l < |segs| :: Analysed(doc, store, alphabetic, segs[l])
  {
    var text := SpanText(doc, k);
    var off := doc.spans[k].start;
    segs := [];
    for l := 0 to |parsed|
      invariant segs == MergedSegments(store, off, parsed[..l])
      invariant forall m | 0 <= m < |segs| :: Analysed(doc, store, alphabetic, segs[m])
    {
      ParsedFits(text, alphabetic, isAlpha, parsed, l);
      var seg := AnalyzeSegment(doc, k, parsed[l], alphabetic, store);
      AnalysedPush(doc, store, alphabetic, segs, seg);
      MergedSegmentsPush(store, off, parsed, l);
      segs := segs + [seg];
    }
    assert parsed[..|parsed|] == parsed;
  }

  lemma MergedSegmentsPush(store: Dict.Store, off: nat, parsed: seq<Segment>, l: nat)
    requires l < |parsed|
    ensures MergedSegments(store, off, parsed[..l + 1])
         == MergedSegments(store, off, parsed[..l]) + [MergedSegment(store, off, parsed[l])]
  {
    assert parsed[..l + 1][..l] == parsed[..l];
  }

  /** The segments of one span: the segmenter's result for the span text,
      each segment merged. Only the Korean segmenter can fail, and then with
      its own error. */
  method AnalyzeSpan(doc: Document, k: nat, morph: Morph, isAlpha: char -> bool,
                     lexer: seq<LexerToken>, store: Dict.Store)
    returns (r: Result<seq<Segment>>, ghost parsed: seq<Segment>)
    requires SpansValid(doc) && k < |doc.spans| && Trim(SpanText(doc, k)) != []
    requires Ready(morph, isAlpha, SpanText(doc, k), lexer)
    requires morph.Korean? ==> ValidParser(morph.parser)
    ensures morph.Alphabetic? ==> r.Ok?
    ensures r.Err? ==> morph.Korean? && KoreanSegment.Parse(morph.parser, SpanText(doc, k), lexer) == Err(r.error)
    ensures r.Ok? ==> ParsedBy(morph, isAlpha, SpanText(doc, k), lexer, parsed)
    ensures r.Ok? ==> r.value == MergedSegments(store, doc.spans[k].start, parsed)
    ensures r.Ok? ==> forall l | 0 <= l < |r.value| :: Analysed(doc, store, morph.Alphabetic?, r.value[l])
  {
    parsed := [];
    var result := Parse(morph, isAlpha, SpanText(doc, k), lexer);
    if result.Err? {
      return Err(result.error), parsed;
    }
    parsed := result.value;
    var segs := AnalyzeParsed(doc, k, result.value, morph.Alphabetic?, isAlpha, store);
    r := Ok(segs);
  }

  /** The segments of the first `|parses|` spans, span `k` contributing the
      merged `parses[k]`. */
  function DocSegments(doc: Document, store: Dict.Store, parses: seq<seq<Segment>>): seq<Segment>
    requires |parses| <= |doc.spans|
    decreases |parses|
  {
    if parses == [] then []
    else
      var n := |parses| - 1;
      DocSegments(doc, store, parses[..n]) + MergedSegments(store, doc.spans[n].start, parses[n])
  }

  lemma DocSegmentsPush(doc: Document, store: Dict.Store, parses: seq<seq<Segment>>, p: seq<Segment>)
    requires |parses| < |doc.spans|
    ensures DocSegments(doc, store, parses + [p])
         == DocSegments(doc, store, parses) + MergedSegments(store, doc.spans[|parses|].start, p)
  {
    assert (parses + [p])[..|parses|] == parses;
  }

  /** `p` is what span `k` yields: nothing for an all-whitespace span, the
      segmenter's result for its text otherwise. */
  ghost predicate SpanParsed(doc: Document, morph: Morph, isAlpha: char -> bool,
                             lex: string -> seq<LexerToken>, k: nat, p: seq<Segment>)
    requires SpansValid(doc) && k < |doc.spans|
  {
    if Trim(SpanText(doc, k)) == [] then p == []
    else ParsedBy(morph, isAlpha, SpanText(doc, k), lex(SpanText(doc, k)), p)
  }

  /** Every span below `|parses|` yields its entry of `parses`. */
  ghost predicate SpansParsed(doc: Document, morph: Morph, isAlpha: char -> bool,
                              lex: string -> seq<LexerToken>, parses: seq<seq<Segment>>)
    requires SpansValid(doc) && |parses| <= |doc.spans|
    decreases |parses|
  {
    parses == []
    || (SpansParsed(doc, morph, isAlpha, lex, parses[..|parses| - 1])
        && SpanParsed(doc, morph, isAlpha, lex, |parses| - 1, parses[|parses| - 1]))
  }

  lemma SpansParsedPush(doc: Document, morph: Morph, isAlpha: char -> bool, lex: string -> seq<LexerToken>,
                        parses: seq<seq<Segment>>, p: seq<Segment>)
    requires SpansValid(doc) && |parses| < |doc.spans|
    requires SpansParsed(doc, morph, isAlpha, lex, parses)
    requires SpanParsed(doc, morph, isAlpha, lex, |parses|, p)
    ensures SpansParsed(doc, morph, isAlpha, lex, parses + [p])
  {
    assert (parses + [p])[..|parses|] == parses;
  }

  /** `SpansParsed` says of each span that it yields its entry. */
  lemma {:induction false} SpansParsedEach(doc: Document, morph: Morph, isAlpha: char -> bool,
                                           lex: string -> seq<LexerToken>, parses: seq<seq<Segment>>, k: nat)
    requires SpansValid(doc) && |parses| <= |doc.spans|
    requires SpansParsed(doc, morph, isAlpha, lex, parses) && k < |parses|
    ensures SpanParsed(doc, morph, isAlpha, lex, k, parses[k])
    decreases |parses|
  {
    if k < |parses| - 1 {
      SpansParsedEach(doc, morph, isAlpha, lex, parses[..|parses| - 1], k);
    }
  }

  /** `analyze_document`: a document that already has a segment table is
      returned as it is; otherwise the spans are visited in order, an
      all-whitespace span contributing nothing and every other one the
      merged segments of its text, and the segments are keyed by their
      start, a later one replacing an earlier one with the same start. The
      first span the Korean segmenter fails on ends the analysis with its
      error. The lexer is consulted per span text. */
  method AnalyzeDocument(doc: Document, morph: Morph, isAlpha: char -> bool,
                         lex: string -> seq<LexerToken>, store: Dict.Store)
    returns (r: Result<Document>, ghost segs: seq<Segment>, ghost parses: seq<seq<Segment>>)
    requires SpansValid(doc)
    requires morph.Alphabetic? ==> !isAlpha('.')
    requires morph.Korean? ==> ValidParser(morph.parser) && forall t :: InOrder(t, lex(t), 0)
    ensures doc.segments.Some? ==> r == Ok(doc)
    ensures morph.Alphabetic? ==> r.Ok?
    ensures doc.segments.None? && r.Ok? ==>
      |parses| == |doc.spans|
      && SpansParsed(doc, morph, isAlpha, lex, parses)
      && segs == DocSegments(doc, store, parses)
      && r.value == Document(doc.text, doc.spans, Some(KeyByStart(segs)))
    ensures doc.segments.None? && r.Ok? ==> forall l | 0 <= l < |segs| :: Analysed(doc, store, morph.Alphabetic?, segs[l])
    ensures r.Err? ==>
      morph.Korean? && |parses| < |doc.spans| && Trim(SpanText(doc, |parses|)) != []
      && SpansParsed(doc, morph, isAlpha, lex, parses)
      && KoreanSegment.Parse(morph.parser, SpanText(doc, |parses|), lex(SpanText(doc, |parses|))) == Err(r.error)
  {
    segs, parses := [], [];
    if doc.segments.Some? {
      return Ok(doc), segs, parses;
    }
    var all := [];
    for k := 0 to |doc.spans|
      invariant |parses| == k
      invariant all == DocSegments(doc, store, parses)
      invariant SpansParsed(doc, morph, isAlpha, lex, parses)
      invariant forall l | 0 <= l < |all| :: Analysed(doc, store, morph.Alphabetic?, all[l])
    {
      var text := Slice(doc.text, doc.spans[k].start, doc.spans[k].end);
      if Trim(text) == [] {
        SpansParsedPush(doc, morph, isAlpha, lex, parses, []);
        DocSegmentsPush(doc, store, parses, []);
        parses := parses + [[]];
        continue;
      }
      var found, parsed := AnalyzeSpan(doc, k, morph, isAlpha, lex(text), store);
      if found.Err? {
        return Err(found.error), all, parses;
      }
      SpansParsedPush(doc, morph, isAlpha, lex, parses, parsed);
      DocSegmentsPush(doc, store, parses, parsed);
      AnalysedAppend(doc, store, morph.Alphabetic?, all, found.value);
      parses := parses + [parsed];
      all := all + found.value;
    }
    r, segs := Ok(Document(doc.text, doc.spans, Some(KeyByStart(all)))), all;
  }

  lemma AnalysedAppend(doc: Document, store: Dict.Store, alphabetic: bool, segs: seq<Segment>, more: seq<Segment>)
    requires SpansValid(doc)
    requires forall m | 0 <= m < |segs| :: Analysed(doc, store, alphabetic, segs[m])
    requires forall m | 0 <= m < |more| :: Analysed(doc, store, alphabetic, more[m])
    ensures forall m | 0 <= m < |segs + more| :: Analysed(doc, store, alphabetic, (segs + more)[m])
  {
    forall m | 0 <= m < |segs + more| ensures Analysed(doc, store, alphabetic, (segs + more)[m]) {
      if m < |segs| { assert (segs + more)[m] == segs[m]; } else { assert (segs + more)[m] == more[m - |segs|]; }
    }
  }

  /** Every segment in the table `analyze_document` attaches sits at its own
      start, inside a span that is not all whitespace, and holds the merged
      words. */
  lemma AnalysedTable(doc: Document, store: Dict.Store, alphabetic: bool, segs: seq<Segment>, key: nat)
    requires SpansValid(doc)
    requires forall l | 0 <= l < |segs| :: Analysed(doc, store, alphabetic, segs[l])
    requires key in KeyByStart(segs)
    ensures KeyByStart(segs)[key].range.start == key
    ensures Analysed(doc, store, alphabetic, KeyByStart(segs)[key])
  {
    KeyByStartValues(segs, key);
  }
}
