/** Segmenting in src/morph.rs: `parse` builds a queue of tokens whose byte
    ranges tile the text, filling the gaps between lexer tokens with `UNK`
    tokens, and `KoreanParseOutput::next` pulls segments off that queue. */
module KoreanSegment {
  import opened Common
  import opened Utf8
  import opened Pattern
  import opened KoreanRoot
  import opened KoreanReduce
  import Dict

  /** A piece of the analysed text and the words it may be. */
  datatype Segment = Segment(range: Range, text: string, words: seq<Dict.Word>)

  // ---------------------------------------------------------------------
  // The token queue

  /** What `parse` relies on from the lexer: token ranges on character
      boundaries, in order and not overlapping, none starting before `from`;
      slicing the text panics otherwise. */
  predicate InOrder(text: string, lexer: seq<LexerToken>, from: nat) {
    (forall k | 0 <= k < |lexer| ::
       lexer[k].range.start <= lexer[k].range.end
       && IsCharBoundary(text, lexer[k].range.start) && IsCharBoundary(text, lexer[k].range.end))
    && (|lexer| > 0 ==> from <= lexer[0].range.start)
    && (forall k | 0 <= k < |lexer| - 1 :: lexer[k].range.end <= lexer[k + 1].range.start)
  }

  lemma InOrderTail(text: string, lexer: seq<LexerToken>, from: nat, from': nat)
    requires |lexer| > 0 && InOrder(text, lexer, from)
    requires from' <= lexer[0].range.end
    ensures InOrder(text, lexer[1..], from')
  {
  }

  /** The bytes between two lexer tokens as an `UNK` token, if there are any. */
  function Gap(text: string, a: nat, b: nat): (r: seq<Token>)
    requires IsCharBoundary(text, a) && IsCharBoundary(text, b) && a <= b
    ensures a == b <==> r == []
    ensures r != [] ==> r == [Token(Some(Range(a, b)), Slice(text, a, b), [Element(Slice(text, a, b), "UNK")])]
  {
    var sep := Slice(text, a, b);
    if sep == [] then [] else [Token(Some(Range(a, b)), sep, [Element(sep, "UNK")])]
  }

  /** The queue `parse` builds from the lexer tokens, `last` being the end of
      the last token kept: a token whose text is `*` is dropped, so its bytes
      fall into the next gap. */
  function Queue(text: string, lexer: seq<LexerToken>, last: nat): Result<seq<Token>>
    requires InOrder(text, lexer, last) && IsCharBoundary(text, last)
    decreases |lexer|
  {
    if lexer == [] then
      EndIsBoundary(text);
      BoundaryBound(text, last);
      Ok(Gap(text, last, ByteLen(text)))
    else
      var t :- FromLexerToken(lexer[0]);
      if t.text == "*" then
        InOrderTail(text, lexer, last, last);
        Queue(text, lexer[1..], last)
      else
        InOrderTail(text, lexer, last, lexer[0].range.end);
        var rest :- Queue(text, lexer[1..], lexer[0].range.end);
        Ok(Gap(text, last, lexer[0].range.start) + [t] + rest)
  }

  /** Every token has a range, and the ranges follow each other from `a` to
      `b` without gap or overlap. */
  predicate Tiles(q: seq<Token>, a: nat, b: nat)
    decreases |q|
  {
    if q == [] then a == b
    else q[0].range.Some? && q[0].range.value.start == a && a <= q[0].range.value.end
         && Tiles(q[1..], q[0].range.value.end, b)
  }

  lemma {:induction false} TilesConcat(p: seq<Token>, q: seq<Token>, a: nat, m: nat, b: nat)
    requires Tiles(p, a, m) && Tiles(q, m, b)
    ensures Tiles(p + q, a, b)
    decreases |p|
  {
    if p != [] {
      assert (p + q)[1..] == p[1..] + q;
      assert (p + q)[0] == p[0];
      TilesConcat(p[1..], q, p[0].range.value.end, m, b);
    } else {
      assert p + q == q;
    }
  }

  lemma GapTiles(text: string, a: nat, b: nat)
    requires IsCharBoundary(text, a) && IsCharBoundary(text, b) && a <= b
    ensures Tiles(Gap(text, a, b), a, b) && NonEmptyPatterns(Gap(text, a, b))
  {
    var g := Gap(text, a, b);
    if g != [] {
      assert Tiles(g[1..], b, b);
    }
  }

  lemma NonEmptyConcat(p: seq<Token>, q: seq<Token>)
    requires NonEmptyPatterns(p) && NonEmptyPatterns(q)
    ensures NonEmptyPatterns(p + q)
  {
    forall k | 0 <= k < |p + q| ensures |(p + q)[k].pattern| >= 1 {
      if k >= |p| { assert (p + q)[k] == q[k - |p|]; }
    }
  }

  /** One step of the queue: the gap, the lexer's token, then the rest. */
  lemma QueueCons(text: string, lexer: seq<LexerToken>, last: nat)
    requires InOrder(text, lexer, last) && IsCharBoundary(text, last)
    requires lexer != [] && FromLexerToken(lexer[0]).Ok? && FromLexerToken(lexer[0]).value.text != "*"
    ensures InOrder(text, lexer[1..], lexer[0].range.end)
    ensures Queue(text, lexer, last)
            == Prepend(Gap(text, last, lexer[0].range.start) + [FromLexerToken(lexer[0]).value],
                       Queue(text, lexer[1..], lexer[0].range.end))
  {
    InOrderTail(text, lexer, last, lexer[0].range.end);
  }

  /** The queue covers the text from `last` to its end, and every token
      carries a non-empty pattern. */
  lemma {:induction false} QueueTiles(text: string, lexer: seq<LexerToken>, last: nat)
    requires InOrder(text, lexer, last) && IsCharBoundary(text, last)
    requires Queue(text, lexer, last).Ok?
    ensures Tiles(Queue(text, lexer, last).value, last, ByteLen(text))
    ensures NonEmptyPatterns(Queue(text, lexer, last).value)
    decreases |lexer|
  {
    EndIsBoundary(text);
    BoundaryBound(text, last);
    if lexer == [] {
      GapTiles(text, last, ByteLen(text));
    } else {
      var t := FromLexerToken(lexer[0]).value;
      if t.text == "*" {
        InOrderTail(text, lexer, last, last);
        QueueTiles(text, lexer[1..], last);
      } else {
        var start, end := lexer[0].range.start, lexer[0].range.end;
        QueueCons(text, lexer, last);
        QueueTiles(text, lexer[1..], end);
        var rest := Queue(text, lexer[1..], end).value;
        var g := Gap(text, last, start);
        GapTiles(text, last, start);
        assert Tiles([t] + rest, start, ByteLen(text)) by {
          assert ([t] + rest)[1..] == rest;
        }
        TilesConcat(g, [t] + rest, last, start, ByteLen(text));
        NonEmptyConcat([t], rest);
        NonEmptyConcat(g, [t] + rest);
        assert Queue(text, lexer, last).value == g + ([t] + rest);
      }
    }
  }

  /** `tokens` followed by what `r` holds, or `r`'s error. */
  function Prepend(tokens: seq<Token>, r: Result<seq<Token>>): Result<seq<Token>>
  {
    if r.Err? then r else Ok(tokens + r.value)
  }

  lemma PrependNil(r: Result<seq<Token>>)
    ensures Prepend([], r) == r
  {
    if r.Ok? { assert [] + r.value == r.value; }
  }

  lemma PrependTwice(a: seq<Token>, b: seq<Token>, r: Result<seq<Token>>)
    ensures Prepend(a, Prepend(b, r)) == Prepend(a + b, r)
  {
    if r.Ok? { assert a + (b + r.value) == a + b + r.value; }
  }

  /** The token-queue loop of `parse`. */
  method BuildQueue(text: string, lexer: seq<LexerToken>) returns (r: Result<seq<Token>>)
    requires InOrder(text, lexer, 0)
    ensures r == Queue(text, lexer, 0)
  {
    var tokens: seq<Token> := [];
    var last: nat := 0;
    assert IsCharBoundary(text, 0);
    assert lexer[0..] == lexer;
    PrependNil(Queue(text, lexer, 0));
    for k := 0 to |lexer|
      invariant InOrder(text, lexer[k..], last) && IsCharBoundary(text, last)
      invariant Queue(text, lexer, 0) == Prepend(tokens, Queue(text, lexer[k..], last))
    {
      assert lexer[k..][1..] == lexer[k + 1..];
      var t := FromLexerToken(lexer[k]);
      if t.Err? {
        return Err(t.error);
      }
      var token := t.value;
      if token.text != "*" {
        QueueCons(text, lexer[k..], last);
        var gap := Gap(text, last, lexer[k].range.start);
        PrependTwice(tokens, gap + [token], Queue(text, lexer[k + 1..], lexer[k].range.end));
        assert tokens + (gap + [token]) == tokens + gap + [token];
        tokens := tokens + gap + [token];
        last := lexer[k].range.end;
      } else {
        InOrderTail(text, lexer[k..], last, last);
      }
    }
    EndIsBoundary(text);
    BoundaryBound(text, last);
    tokens := tokens + Gap(text, last, ByteLen(text));
    r := Ok(tokens);
  }

  // ---------------------------------------------------------------------
  // Pulling segments

  /** How many tokens at the front of the queue have a range and a word
      pattern: the run that one segment merges. */
  function WordRunLen(tokens: seq<Token>): (k: nat)
    ensures k <= |tokens|
    ensures forall j | 0 <= j < k :: tokens[j].range.Some? && IsWordPattern(tokens[j].pattern)
    ensures k < |tokens| ==> tokens[k].range.None? || !IsWordPattern(tokens[k].pattern)
  {
    if tokens == [] || tokens[0].range.None? || !IsWordPattern(tokens[0].pattern) then 0
    else 1 + WordRunLen(tokens[1..])
  }

  const MissingRange := AppError("token is missing source range")

  /** The words of a segment: one per override of its text, then the one
      built from its own tokens; the first failure is the result. */
  function OverrideWords(parser: Parser, text: string, overrides: seq<seq<Token>>): Result<seq<Dict.Word>>
    requires WellFormed(parser.rules)
    requires forall k | 0 <= k < |overrides| :: NonEmptyPatterns(overrides[k])
  {
    if overrides == [] then Ok([])
    else
      var w :- TokensToWordSpec(parser, text, overrides[0]);
      var rest :- OverrideWords(parser, text, overrides[1..]);
      Ok([w] + rest)
  }

  function OverridesOf(parser: Parser, text: string): seq<seq<Token>> {
    if text in parser.overrides then parser.overrides[text] else []
  }

  /** Every override parsing has non-empty patterns, as `WordParsing` yields. */
  ghost predicate ValidParser(parser: Parser) {
    WellFormed(parser.rules)
    && forall t, k | t in parser.overrides && 0 <= k < |parser.overrides[t]| :: NonEmptyPatterns(parser.overrides[t][k])
  }

  function SegmentWords(parser: Parser, text: string, run: seq<Token>): Result<seq<Dict.Word>>
    requires ValidParser(parser) && NonEmptyPatterns(run)
  {
    var words :- OverrideWords(parser, text, OverridesOf(parser, text));
    var w :- TokensToWordSpec(parser, text, run);
    Ok(words + [w])
  }

  /** The result of one call to `next` and the state it leaves. */
  datatype Advance = Advance(result: Result<Option<Segment>>, tokens: seq<Token>, next: Option<Segment>)

  /** The tokens `next` leaves after a run of `k` word tokens: it pops the
      token that stopped the run too. */
  function Rest(tokens: seq<Token>, k: nat): seq<Token>
    requires k <= |tokens|
  {
    if k < |tokens| then tokens[k + 1..] else []
  }

  /** The non-word token that stopped a run, as a segment without words. */
  function Stopper(tokens: seq<Token>, k: nat): Option<Segment>
    requires k <= |tokens|
  {
    if k < |tokens| && tokens[k].range.Some? then Some(Segment(tokens[k].range.value, tokens[k].text, [])) else None
  }

  /** The segment merged from a run of `k > 0` word tokens. */
  function RunSegment(parser: Parser, tokens: seq<Token>, k: nat): Result<Segment>
    requires ValidParser(parser) && NonEmptyPatterns(tokens)
    requires 0 < k <= WordRunLen(tokens)
  {
    var run := tokens[..k];
    var text := TokenTexts(run);
    var words :- SegmentWords(parser, text, run);
    Ok(Segment(Range(run[0].range.value.start, run[k - 1].range.value.end), text, words))
  }

  /** `KoreanParseOutput::next`. */
  function NextSpec(parser: Parser, tokens: seq<Token>, next: Option<Segment>): Advance
    requires ValidParser(parser) && NonEmptyPatterns(tokens)
  {
    if next.Some? then Advance(Ok(next), tokens, None)
    else
      var k := WordRunLen(tokens);
      if k < |tokens| && tokens[k].range.None? then Advance(Err(MissingRange), Rest(tokens, k), None)
      else if k == 0 then Advance(Ok(Stopper(tokens, k)), Rest(tokens, k), None)
      else match RunSegment(parser, tokens, k)
        case Err(e) => Advance(Err(e), Rest(tokens, k), Stopper(tokens, k))
        case Ok(seg) => Advance(Ok(Some(seg)), Rest(tokens, k), Stopper(tokens, k))
  }

  /** `next` after a run of `k > 0` word tokens that a token with a range,
      or the end of the queue, stopped. */
  lemma {:induction false} NextRun(parser: Parser, tokens: seq<Token>, k: nat)
    requires ValidParser(parser) && NonEmptyPatterns(tokens)
    requires k == WordRunLen(tokens) && k > 0 && !(k < |tokens| && tokens[k].range.None?)
    ensures var words := SegmentWords(parser, TokenTexts(tokens[..k]), tokens[..k]);
            var seg := Segment(Range(tokens[0].range.value.start, tokens[k - 1].range.value.end),
                               TokenTexts(tokens[..k]), if words.Ok? then words.value else []);
            NextSpec(parser, tokens, None)
            == Advance(if words.Err? then Err(words.error) else Ok(Some(seg)), Rest(tokens, k), Stopper(tokens, k))
  {
    var words := SegmentWords(parser, TokenTexts(tokens[..k]), tokens[..k]);
    var seg := Segment(Range(tokens[0].range.value.start, tokens[k - 1].range.value.end),
                       TokenTexts(tokens[..k]), if words.Ok? then words.value else []);
    assert RunSegment(parser, tokens, k) == if words.Err? then Err(words.error) else Ok(seg);
  }

  /** A buffered segment is returned first, and an empty queue yields nothing. */
  lemma NextBuffered(parser: Parser, tokens: seq<Token>, next: Option<Segment>)
    requires ValidParser(parser) && NonEmptyPatterns(tokens)
    ensures var a := NextSpec(parser, tokens, next);
            (next.Some? ==> a == Advance(Ok(next), tokens, None))
            && (next.None? && tokens == [] ==> a == Advance(Ok(None), [], None))
  {
  }

  /** A run of word tokens becomes one segment over their joint text and range. */
  lemma NextRunShape(parser: Parser, tokens: seq<Token>)
    requires ValidParser(parser) && NonEmptyPatterns(tokens)
    ensures var a := NextSpec(parser, tokens, None);
            var k := WordRunLen(tokens);
            a.result.Ok? && a.result.value.Some? && k > 0 ==>
              var s := a.result.value.value;
              s.text == TokenTexts(tokens[..k])
              && s.range == Range(tokens[0].range.value.start, tokens[k - 1].range.value.end)
              && s.words != [] && Ok(s.words[|s.words| - 1]) == TokensToWordSpec(parser, s.text, tokens[..k])
              && (k < |tokens| ==> a.next == Some(Segment(tokens[k].range.value, tokens[k].text, [])))
  {
    var k := WordRunLen(tokens);
    if k > 0 && !(k < |tokens| && tokens[k].range.None?) {
      NextRun(parser, tokens, k);
    }
  }

  /** With no run, the non-word token at the front is returned alone. */
  lemma NextNonWord(parser: Parser, tokens: seq<Token>)
    requires ValidParser(parser) && NonEmptyPatterns(tokens)
    ensures var a := NextSpec(parser, tokens, None);
            WordRunLen(tokens) == 0 && tokens != [] && tokens[0].range.Some? ==>
              a == Advance(Ok(Some(Segment(tokens[0].range.value, tokens[0].text, []))), tokens[1..], None)
  {
  }

  /** Reading from the queue consumes a non-empty prefix of it. */
  lemma NextConsumes(parser: Parser, tokens: seq<Token>)
    requires ValidParser(parser) && NonEmptyPatterns(tokens) && tokens != []
    ensures var a := NextSpec(parser, tokens, None);
            |a.tokens| < |tokens| && tokens[|tokens| - |a.tokens|..] == a.tokens
  {
    var k := WordRunLen(tokens);
    var a := NextSpec(parser, tokens, None);
    assert a.tokens == Rest(tokens, k);
  }

  /** What `next` returns: the buffered segment first; otherwise a merged run
      of word tokens, whose text is theirs concatenated, whose range runs from
      the first one's start to the last one's end, and whose last word is built
      from the run itself; with no run, the non-word token behind it. Every
      call that finds tokens or a buffered segment makes progress. */
  lemma NextShape(parser: Parser, tokens: seq<Token>, next: Option<Segment>)
    requires ValidParser(parser) && NonEmptyPatterns(tokens)
    ensures var a := NextSpec(parser, tokens, next);
            (next.Some? ==> a == Advance(Ok(next), tokens, None))
            && (next.None? && tokens == [] ==> a == Advance(Ok(None), [], None))
    ensures var a := NextSpec(parser, tokens, next);
            var k := WordRunLen(tokens);
            next.None? && a.result.Ok? && a.result.value.Some? && k > 0 ==>
              var s := a.result.value.value;
              s.text == TokenTexts(tokens[..k])
              && s.range == Range(tokens[0].range.value.start, tokens[k - 1].range.value.end)
              && s.words != [] && Ok(s.words[|s.words| - 1]) == TokensToWordSpec(parser, s.text, tokens[..k])
              && (k < |tokens| ==> a.next == Some(Segment(tokens[k].range.value, tokens[k].text, [])))
    ensures var a := NextSpec(parser, tokens, next);
            next.None? && WordRunLen(tokens) == 0 && tokens != [] && tokens[0].range.Some? ==>
              a == Advance(Ok(Some(Segment(tokens[0].range.value, tokens[0].text, []))), tokens[1..], None)
    ensures var a := NextSpec(parser, tokens, next);
            next.None? && tokens != [] ==> |a.tokens| < |tokens| && tokens[|tokens| - |a.tokens|..] == a.tokens
  {
    NextBuffered(parser, tokens, next);
    if next.None? {
      NextRunShape(parser, tokens);
      NextNonWord(parser, tokens);
      if tokens != [] {
        NextConsumes(parser, tokens);
      }
    }
  }

  /** A queue position that `Drain` can decrease: two per token, one for a
      buffered segment. */
  function Pending(tokens: seq<Token>, next: Option<Segment>): nat {
    2 * |tokens| + if next.Some? then 1 else 0
  }

  lemma NextProgress(parser: Parser, tokens: seq<Token>, next: Option<Segment>)
    requires ValidParser(parser) && NonEmptyPatterns(tokens)
    requires next.Some? || tokens != []
    ensures var a := NextSpec(parser, tokens, next);
            Pending(a.tokens, a.next) < Pending(tokens, next) && NonEmptyPatterns(a.tokens)
  {
    var a := NextSpec(parser, tokens, next);
    if next.Some? {
      NextBuffered(parser, tokens, next);
    } else {
      NextConsumes(parser, tokens);
      forall j | 0 <= j < |a.tokens| ensures |a.tokens[j].pattern| >= 1 {
        assert a.tokens[j] == tokens[|tokens| - |a.tokens| + j];
      }
    }
  }

  /** The stream `parse` returns: `next` called until it yields nothing,
      stopping at the first error. */
  function Drain(parser: Parser, tokens: seq<Token>, next: Option<Segment>): Result<seq<Segment>>
    requires ValidParser(parser) && NonEmptyPatterns(tokens)
    decreases Pending(tokens, next)
  {
    if next.None? && tokens == [] then Ok([])
    else
      var a := NextSpec(parser, tokens, next);
      NextProgress(parser, tokens, next);
      match a.result
      case Err(e) => Err(e)
      case Ok(None) => Ok([])
      case Ok(Some(s)) =>
        var rest :- Drain(parser, a.tokens, a.next);
        Ok([s] + rest)
  }

  /** Segment ranges that follow each other from `a` to `b`. */
  predicate SegmentsTile(segs: seq<Segment>, a: nat, b: nat)
    decreases |segs|
  {
    if segs == [] then a == b
    else segs[0].range.start == a && a <= segs[0].range.end && SegmentsTile(segs[1..], segs[0].range.end, b)
  }

  /** The segments of a tiling queue tile the same bytes: nothing is lost or
      covered twice between lexer output and segments. */
  lemma {:induction false} DrainTiles(parser: Parser, tokens: seq<Token>, next: Option<Segment>, a: nat, b: nat)
    requires ValidParser(parser) && NonEmptyPatterns(tokens)
    requires next.None? ==> Tiles(tokens, a, b)
    requires next.Some? ==> next.value.range.start == a && a <= next.value.range.end && Tiles(tokens, next.value.range.end, b)
    requires Drain(parser, tokens, next).Ok?
    ensures SegmentsTile(Drain(parser, tokens, next).value, a, b)
    decreases Pending(tokens, next)
  {
    if next.None? && tokens == [] {
    } else {
      var x := NextSpec(parser, tokens, next);
      NextProgress(parser, tokens, next);
      NextShape(parser, tokens, next);
      if x.result.value.Some? {
        var s := x.result.value.value;
        var m := s.range.end;
        if next.None? {
          var k := WordRunLen(tokens);
          if k > 0 {
            TilesRanged(tokens, a, b);
            RunTiles(tokens, k, a, b);
          }
        }
        DrainTiles(parser, x.tokens, x.next, m, b);
      } else {
        assert false;
      }
    }
  }

  lemma {:induction false} TilesRanged(tokens: seq<Token>, a: nat, b: nat)
    requires Tiles(tokens, a, b)
    ensures forall j | 0 <= j < |tokens| :: tokens[j].range.Some?
    decreases |tokens|
  {
    if tokens != [] {
      TilesRanged(tokens[1..], tokens[0].range.value.end, b);
      forall j | 1 <= j < |tokens| ensures tokens[j].range.Some? {
        assert tokens[j] == tokens[1..][j - 1];
      }
    }
  }

  /** After a tiling run of `k` word tokens the rest still tiles, from the
      run's end. */
  lemma {:induction false} RunTiles(tokens: seq<Token>, k: nat, a: nat, b: nat)
    requires 0 < k <= |tokens| && Tiles(tokens, a, b)
    requires forall j | 0 <= j < |tokens| :: tokens[j].range.Some?
    ensures tokens[0].range.value.start == a
    ensures a <= tokens[k - 1].range.value.end
    ensures Tiles(tokens[k..], tokens[k - 1].range.value.end, b)
    ensures k < |tokens| ==> tokens[k].range.value.start == tokens[k - 1].range.value.end
                             && tokens[k].range.value.start <= tokens[k].range.value.end
                             && Tiles(tokens[k + 1..], tokens[k].range.value.end, b)
    decreases k
  {
    if k > 1 {
      RunTiles(tokens[1..], k - 1, tokens[0].range.value.end, b);
      assert tokens[1..][k - 1..] == tokens[k..];
      assert tokens[1..][k - 2] == tokens[k - 1];
      if k < |tokens| {
        assert tokens[1..][k..] == tokens[k + 1..];
      }
    } else if k < |tokens| {
      assert tokens[1..][1..] == tokens[2..];
    }
  }

  /** `parse` followed by draining its stream. */
  function Parse(parser: Parser, text: string, lexer: seq<LexerToken>): Result<seq<Segment>>
    requires ValidParser(parser) && InOrder(text, lexer, 0)
  {
    assert IsCharBoundary(text, 0);
    var q :- Queue(text, lexer, 0);
    QueueTiles(text, lexer, 0);
    Drain(parser, q, None)
  }

  /** The segments of a parse tile the whole text, in byte offsets. */
  lemma ParseTiles(parser: Parser, text: string, lexer: seq<LexerToken>)
    requires ValidParser(parser) && InOrder(text, lexer, 0)
    requires Parse(parser, text, lexer).Ok?
    ensures SegmentsTile(Parse(parser, text, lexer).value, 0, ByteLen(text))
  {
    assert IsCharBoundary(text, 0);
    QueueTiles(text, lexer, 0);
    DrainTiles(parser, Queue(text, lexer, 0).value, None, 0, ByteLen(text));
  }

  /** The pull-based segmenter over the queue `parse` built. */
  class ParseOutput {
    const parser: Parser
    var tokens: seq<Token>
    var next: Option<Segment>

    ghost predicate Valid()
      reads this
    {
      ValidParser(parser) && NonEmptyPatterns(tokens)
    }

    constructor(parser: Parser, tokens: seq<Token>)
      requires ValidParser(parser) && NonEmptyPatterns(tokens)
      ensures Valid() && this.parser == parser && this.tokens == tokens && next == None
    {
      this.parser := parser;
      this.tokens := tokens;
      this.next := None;
    }

    /** `KoreanParseOutput::next`: pops tokens off the queue, stashing the
        first non-word token for the following call. */
    method Next() returns (r: Result<Option<Segment>>)
      requires Valid()
      modifies this
      ensures Valid()
      ensures Advance(r, tokens, next) == NextSpec(parser, old(tokens), old(next))
    {
      if next.Some? {
        r := Ok(next);
        next := None;
        return;
      }
      ghost var start := tokens;
      ghost var k := WordRunLen(start);
      var missing, run, text, range := PopRun();
      if missing {
        r := Err(MissingRange);
      } else if range.None? {
        r := Ok(next);
        next := None;
      } else {
        var words := SegmentWordsOf(text, run);
        NextRun(parser, start, k);
        if words.Err? {
          r := Err(words.error);
        } else {
          r := Ok(Some(Segment(range.value, text, words.value)));
        }
      }
    }

    /** The popping loop of `next`: a maximal run of word tokens, their
        concatenated text and their combined range, then the token that
        stopped the run, which is either missing its range or buffered. */
    method PopRun() returns (missing: bool, run: seq<Token>, text: string, range: Option<Range>)
      requires Valid() && next.None?
      modifies this
      ensures Valid()
      ensures var k := WordRunLen(old(tokens));
              run == old(tokens)[..k] && text == TokenTexts(run) && tokens == Rest(old(tokens), k)
              && (run == [] <==> range.None?)
              && (run != [] ==> range == Some(Range(run[0].range.value.start, run[|run| - 1].range.value.end)))
              && missing == (k < |old(tokens)| && old(tokens)[k].range.None?)
              && next == (if missing then None else Stopper(old(tokens), k))
    {
      ghost var start := tokens;
      run, text, range, missing := [], [], None, false;
      while tokens != []
        invariant |run| <= WordRunLen(start) && run == start[..|run|] && tokens == start[|run|..]
        invariant next.None? && text == TokenTexts(run)
        invariant run == [] <==> range.None?
        invariant run != [] ==> range == Some(Range(run[0].range.value.start, run[|run| - 1].range.value.end))
        invariant NonEmptyPatterns(tokens)
        decreases |tokens|
      {
        var token := tokens[0];
        tokens := tokens[1..];
        if token.range.None? || !IsWordPattern(token.pattern) {
          assert |run| == WordRunLen(start);
          if token.range.None? {
            missing := true;
          } else {
            next := Some(Segment(token.range.value, token.text, []));
          }
          return;
        }
        if range.Some? {
          range := Some(range.value.(end := token.range.value.end));
        } else {
          range := token.range;
        }
        TokenTextsAppend(run, token);
        text := text + token.text;
        run := run + [token];
        assert start[..|run|] == start[..|run| - 1] + [start[|run| - 1]];
      }
    }

    /** The words `next` builds for a run: the overrides of its text, then the
        run's own analysis. */
    method SegmentWordsOf(text: string, run: seq<Token>) returns (r: Result<seq<Dict.Word>>)
      requires Valid() && NonEmptyPatterns(run)
      ensures r == SegmentWords(parser, text, run)
    {
      var words := [];
      var overrides := OverridesOf(parser, text);
      assert overrides[0..] == overrides;
      PrependWordsNil(OverrideWords(parser, text, overrides));
      assert forall k | 0 <= k < |overrides| :: NonEmptyPatterns(overrides[k]);
      for k := 0 to |overrides|
        invariant OverrideWords(parser, text, overrides) == PrependWords(words, OverrideWords(parser, text, overrides[k..]))
      {
        OverrideWordsCons(parser, text, overrides[k..]);
        assert overrides[k..][1..] == overrides[k + 1..];
        var w := TokensToWord(parser, text, overrides[k]);
        if w.Err? {
          return Err(w.error);
        }
        PrependWordsTwice(words, [w.value], OverrideWords(parser, text, overrides[k + 1..]));
        words := words + [w.value];
      }
      assert overrides[|overrides|..] == [];
      assert words + [] == words;
      assert OverrideWords(parser, text, overrides) == Ok(words);
      var w := TokensToWord(parser, text, run);
      if w.Err? {
        return Err(w.error);
      }
      r := Ok(words + [w.value]);
    }
  }

  function PrependWords(words: seq<Dict.Word>, r: Result<seq<Dict.Word>>): Result<seq<Dict.Word>>
  {
    if r.Err? then r else Ok(words + r.value)
  }

  lemma PrependWordsNil(r: Result<seq<Dict.Word>>)
    ensures PrependWords([], r) == r
  {
    if r.Ok? { assert [] + r.value == r.value; }
  }

  lemma PrependWordsTwice(a: seq<Dict.Word>, b: seq<Dict.Word>, r: Result<seq<Dict.Word>>)
    ensures PrependWords(a, PrependWords(b, r)) == PrependWords(a + b, r)
  {
    if r.Ok? { assert a + (b + r.value) == a + b + r.value; }
  }

  // ---------------------------------------------------------------------
  // Loading the overrides

  /** A row of the override table: a word and its `;`-separated parsing. */
  datatype OverrideRow = OverrideRow(word: string, parsing: string)

  /** The table `KoreanParser::load` builds, `parse` reading each row's
      parsing (`WordParsing::from_str`, that is `ParseWordParsing`): the rows
      are read in turn, the first that does not parse failing the load, and
      each parsing is appended to the list of its word. */
  function LoadedOverrides(rows: seq<OverrideRow>, parse: string -> Result<seq<Token>>)
    : Result<map<string, seq<seq<Token>>>>
    decreases |rows|
  {
    if rows == [] then Ok(map[])
    else
      var table :- LoadedOverrides(rows[..|rows| - 1], parse);
      var row := rows[|rows| - 1];
      var tokens :- parse(row.parsing);
      Ok(table[row.word := OverridesIn(table, row.word) + [tokens]])
  }

  function OverridesIn(table: map<string, seq<seq<Token>>>, word: string): seq<seq<Token>> {
    if word in table then table[word] else []
  }

  /** The loading loop, reading each row with `parse`. */
  method LoadOverrides(rows: seq<OverrideRow>, parse: string -> Result<seq<Token>>)
    returns (r: Result<map<string, seq<seq<Token>>>>)
    ensures r == LoadedOverrides(rows, parse)
  {
    var table := map[];
    for i := 0 to |rows|
      invariant LoadedOverrides(rows[..i], parse) == Ok(table)
    {
      assert rows[..i + 1][..i] == rows[..i];
      var tokens := parse(rows[i].parsing);
      if tokens.Err? {
        LoadedOverridesFailed(rows, parse, i + 1);
        return Err(tokens.error);
      }
      var list := if rows[i].word in table then table[rows[i].word] else [];
      table := table[rows[i].word := list + [tokens.value]];
    }
    assert rows[..|rows|] == rows;
    r := Ok(table);
  }

  /** Once a row fails, the rows after it are not read. */
  lemma {:induction false} LoadedOverridesFailed(rows: seq<OverrideRow>, parse: string -> Result<seq<Token>>, j: nat)
    requires j <= |rows| && LoadedOverrides(rows[..j], parse).Err?
    ensures LoadedOverrides(rows, parse) == LoadedOverrides(rows[..j], parse)
    decreases |rows|
  {
    if j < |rows| {
      var init := rows[..|rows| - 1];
      assert init[..j] == rows[..j];
      LoadedOverridesFailed(init, parse, j);
    } else {
      assert rows[..j] == rows;
    }
  }

  /** The load succeeds exactly when every row's parsing parses. */
  lemma {:induction false} LoadedOverridesOk(rows: seq<OverrideRow>, parse: string -> Result<seq<Token>>)
    ensures LoadedOverrides(rows, parse).Ok? <==> forall i | 0 <= i < |rows| :: parse(rows[i].parsing).Ok?
    decreases |rows|
  {
    if rows != [] {
      var init := rows[..|rows| - 1];
      LoadedOverridesOk(init, parse);
      assert forall i | 0 <= i < |init| :: init[i] == rows[i];
    }
  }

  /** The loaded table has an entry for exactly the words of the rows. */
  lemma {:induction false} LoadedOverridesWords(rows: seq<OverrideRow>, parse: string -> Result<seq<Token>>,
                                                word: string)
    requires LoadedOverrides(rows, parse).Ok?
    ensures word in LoadedOverrides(rows, parse).value <==> exists i | 0 <= i < |rows| :: rows[i].word == word
    decreases |rows|
  {
    if rows != [] {
      var init := rows[..|rows| - 1];
      LoadedOverridesWords(init, parse, word);
      assert forall i | 0 <= i < |init| :: init[i] == rows[i];
    }
  }

  /** When every parsing the reader returns has non-empty patterns, so has
      every parsing in the loaded table. */
  lemma {:induction false} LoadedOverridesNonEmpty(rows: seq<OverrideRow>, parse: string -> Result<seq<Token>>)
    requires LoadedOverrides(rows, parse).Ok?
    requires forall s :: parse(s).Ok? ==> NonEmptyPatterns(parse(s).value)
    ensures var table := LoadedOverrides(rows, parse).value;
      forall t, k | t in table && 0 <= k < |table[t]| :: NonEmptyPatterns(table[t][k])
    decreases |rows|
  {
    if rows != [] {
      LoadedOverridesNonEmpty(rows[..|rows| - 1], parse);
    }
  }

  /** A parser built from the loaded rule table and override table is one
      the segmenter accepts. */
  lemma LoadedParserValid(ruleRows: seq<RuleRow>, rows: seq<OverrideRow>, wordExists: string -> bool, fuel: nat)
    requires LoadedOverrides(rows, ParseWordParsing).Ok?
    ensures ValidParser(Parser(Load(ruleRows), LoadedOverrides(rows, ParseWordParsing).value, wordExists, fuel))
  {
    LoadWellFormed(ruleRows);
    forall s ensures ParseWordParsing(s).Ok? ==> NonEmptyPatterns(ParseWordParsing(s).value) {
    }
    LoadedOverridesNonEmpty(rows, ParseWordParsing);
  }

  lemma OverrideWordsCons(parser: Parser, text: string, overrides: seq<seq<Token>>)
    requires WellFormed(parser.rules) && overrides != []
    requires forall k | 0 <= k < |overrides| :: NonEmptyPatterns(overrides[k])
    ensures var w := TokensToWordSpec(parser, text, overrides[0]);
            OverrideWords(parser, text, overrides)
            == if w.Err? then Err(w.error) else PrependWords([w.value], OverrideWords(parser, text, overrides[1..]))
  {
  }

  lemma TokenTextsAppend(run: seq<Token>, t: Token)
    ensures TokenTexts(run + [t]) == TokenTexts(run) + t.text
  {
    if run != [] {
      assert (run + [t])[1..] == run[1..] + [t];
      TokenTextsAppend(run[1..], t);
    }
  }
}
