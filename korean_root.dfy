/** Root extraction in src/morph.rs: every token prefix, with or without the
    first element of the next token, proposes a dictionary root; the proposals
    are ranked by `preferred_over` and the best one becomes the first element
    of the normalised pattern. */
module KoreanRoot {
  import opened Common
  import opened Pattern

  /** The suffix "다" that turns a verb or adjective stem into its dictionary form. */
  const Da: string := "\U{B2E4}"

  predicate StartsWith(s: string, c: char) { |s| > 0 && s[0] == c }

  /** `is_noun_pos`. */
  predicate IsNounPos(pos: string) {
    StartsWith(pos, 'N') || pos == "XSN" || pos == "ETN"
  }

  /** `is_verb_pos`. */
  predicate IsVerbPos(pos: string) {
    pos == "VV" || pos == "VA" || pos == "VX" || pos == "XSV" || pos == "XSA"
  }

  datatype RootProposal = RootProposal(
    word: string,
    pos: string,
    tokensConsumed: nat,
    extraElement: bool,
    inDict: bool)

  /** `longer_than`: more tokens, or as many and an extra element. */
  predicate LongerThan(a: RootProposal, b: RootProposal) {
    if a.tokensConsumed != b.tokensConsumed then a.tokensConsumed > b.tokensConsumed
    else a.extraElement
  }

  /** `preferred_over`: dictionary words first and, among them, the longer;
      otherwise anything over an auxiliary verb (VX), the shorter of two VXs,
      and the longer of two others. */
  predicate PreferredOver(a: RootProposal, b: RootProposal) {
    if a.inDict != b.inDict then a.inDict
    else if a.inDict then LongerThan(a, b)
    else if (a.pos == "VX") != (b.pos == "VX") then a.pos != "VX"
    else if a.pos == "VX" then LongerThan(b, a)
    else LongerThan(a, b)
  }

  /** The length key that `longer_than` compares: two per token, one for the
      extra element. */
  function Length(p: RootProposal): nat {
    2 * p.tokensConsumed + if p.extraElement then 1 else 0
  }

  /** Between proposals of different lengths `longer_than` compares lengths. */
  lemma LongerThanIsLength(a: RootProposal, b: RootProposal)
    requires Length(a) != Length(b)
    ensures LongerThan(a, b) <==> Length(a) > Length(b)
  {
  }

  /** Between proposals of different lengths `preferred_over` is a strict
      total order: exactly one of two is preferred, and preference chains. */
  lemma PreferredOverAsymmetric(a: RootProposal, b: RootProposal)
    requires Length(a) != Length(b)
    ensures PreferredOver(a, b) != PreferredOver(b, a)
  {
    LongerThanIsLength(a, b);
    LongerThanIsLength(b, a);
  }

  lemma PreferredOverTransitive(a: RootProposal, b: RootProposal, c: RootProposal)
    requires Length(a) != Length(b) && Length(b) != Length(c) && Length(a) != Length(c)
    ensures PreferredOver(a, b) && PreferredOver(b, c) ==> PreferredOver(a, c)
  {
    LongerThanIsLength(a, b);
    LongerThanIsLength(b, a);
    LongerThanIsLength(b, c);
    LongerThanIsLength(c, b);
    LongerThanIsLength(a, c);
    LongerThanIsLength(c, a);
  }

  /** The text of every token, concatenated. */
  function TokenTexts(tokens: seq<Token>): string
  {
    if tokens == [] then [] else tokens[0].text + TokenTexts(tokens[1..])
  }

  /** `RootProposal::build`. A prefix whose last token is a single element
      proposes nothing by itself: the proposal that takes that element as the
      extra element covers it. */
  function Build(prefix: seq<Token>, extra: Option<Element>): (r: Option<RootProposal>)
    ensures r.Some? ==> r.value.tokensConsumed == |prefix| && r.value.extraElement == extra.Some? && !r.value.inDict
    ensures r.Some? ==> IsNounPos(r.value.pos) || IsVerbPos(r.value.pos)
    ensures r.Some? ==>
              r.value.word == TokenTexts(prefix) + (if extra.Some? then extra.value.text else [])
                              + (if IsVerbPos(r.value.pos) then Da else [])
    ensures extra.Some? ==> (r.Some? <==> IsNounPos(extra.value.pos) || IsVerbPos(extra.value.pos))
    ensures extra.None? && prefix != [] && |prefix[|prefix| - 1].pattern| == 1 ==> r.None?
    ensures extra.None? && prefix == [] ==> r.None?
  {
    if extra.None? && prefix != [] && |prefix[|prefix| - 1].pattern| == 1 then None
    else
      var pos :=
        if extra.Some? then Some(extra.value.pos)
        else if prefix != [] && prefix[|prefix| - 1].pattern != [] then Some(Last(prefix[|prefix| - 1].pattern).pos)
        else None;
      if pos.None? then None
      else
        var isVerb := IsVerbPos(pos.value);
        var isNoun := IsNounPos(pos.value);
        if !isNoun && !isVerb then None
        else
          var word := TokenTexts(prefix) + (if extra.Some? then extra.value.text else [])
                      + (if isVerb then Da else []);
          Some(RootProposal(word, pos.value, |prefix|, extra.Some?, false))
  }

  function Last<T>(s: seq<T>): T
    requires s != []
  {
    s[|s| - 1]
  }

  function First<T>(s: seq<T>): Option<T>
  {
    if s == [] then None else Some(s[0])
  }

  /** `normalize_pos`: auxiliary and derived verb tags to VV, derived
      adjectives to VA, nominalisers to NN. */
  function NormalizePos(pos: string): (r: string)
    ensures pos == "VX" || pos == "XSV" ==> r == "VV"
    ensures pos == "XSA" ==> r == "VA"
    ensures pos == "XSN" || pos == "ETN" ==> r == "NN"
    ensures pos !in {"VX", "XSV", "XSA", "XSN", "ETN"} ==> r == pos
  {
    if pos == "VX" || pos == "XSV" then "VV"
    else if pos == "XSA" then "VA"
    else if pos == "XSN" || pos == "ETN" then "NN"
    else pos
  }

  /** `set_or_compare` with `|old, candidate| candidate.preferred_over(old)`. */
  function SetOrCompare(root: Option<RootProposal>, candidate: RootProposal): (r: Option<RootProposal>)
    ensures r.Some?
    ensures root.None? ==> r == Some(candidate)
    ensures root.Some? ==> (r == Some(candidate) <==> PreferredOver(candidate, root.value)) || candidate == root.value
    ensures root.Some? ==> r == Some(candidate) || r == root
  {
    if root.None? then Some(candidate)
    else if PreferredOver(candidate, root.value) then Some(candidate)
    else root
  }

  /** The proposal with its dictionary flag taken from the word store. */
  function Looked(p: Option<RootProposal>, wordExists: string -> bool): (r: seq<RootProposal>)
    ensures p.None? <==> r == []
    ensures p.Some? ==> r == [p.value.(inDict := wordExists(p.value.word))]
  {
    if p.None? then [] else [p.value.(inDict := wordExists(p.value.word))]
  }

  /** The proposals `normalize` considers, in order: for each token index `i`,
      the prefix before it with its first element, then the prefix through it. */
  function Candidates(tokens: seq<Token>, wordExists: string -> bool, i: nat): seq<RootProposal>
    decreases |tokens| - i
  {
    if i >= |tokens| then []
    else
      Looked(Build(tokens[..i], First(tokens[i].pattern)), wordExists)
      + Looked(Build(tokens[..i + 1], None), wordExists)
      + Candidates(tokens, wordExists, i + 1)
  }

  predicate NonEmptyPatterns(tokens: seq<Token>) {
    forall k | 0 <= k < |tokens| :: |tokens[k].pattern| >= 1
  }

  /** Strictly increasing lengths: no two proposals tie. */
  predicate Increasing(cands: seq<RootProposal>) {
    forall j, k | 0 <= j < k < |cands| :: Length(cands[j]) < Length(cands[k])
  }

  /** Every proposal at least `low` long and consuming at most `count` tokens. */
  predicate Bounded(cands: seq<RootProposal>, low: nat, count: nat) {
    forall k | 0 <= k < |cands| :: Length(cands[k]) >= low && cands[k].tokensConsumed <= count
  }

  /** Every proposal at most `high` long. */
  predicate Below(cands: seq<RootProposal>, high: nat) {
    forall k | 0 <= k < |cands| :: Length(cands[k]) <= high
  }

  /** The proposals made at token `i` have lengths `2i+1` and `2i+2`. */
  lemma StepLengths(tokens: seq<Token>, wordExists: string -> bool, i: nat)
    requires NonEmptyPatterns(tokens) && i < |tokens|
    ensures var ab := Looked(Build(tokens[..i], First(tokens[i].pattern)), wordExists)
                      + Looked(Build(tokens[..i + 1], None), wordExists);
            Increasing(ab) && Bounded(ab, 2 * i + 1, |tokens|) && Below(ab, 2 * i + 2)
  {
    assert |tokens[..i]| == i && |tokens[..i + 1]| == i + 1;
  }

  lemma ConcatIncreasing(ab: seq<RootProposal>, rest: seq<RootProposal>, low: nat, count: nat)
    requires Increasing(ab) && Bounded(ab, low, count) && Below(ab, low + 1)
    requires Increasing(rest) && Bounded(rest, low + 2, count)
    ensures Increasing(ab + rest) && Bounded(ab + rest, low, count)
  {
    var c := ab + rest;
    forall k | 0 <= k < |c|
      ensures Length(c[k]) >= low && c[k].tokensConsumed <= count
    {
      if k >= |ab| { assert c[k] == rest[k - |ab|]; } else { assert c[k] == ab[k]; }
    }
    forall j, k | 0 <= j < k < |c| ensures Length(c[j]) < Length(c[k]) {
      if k >= |ab| { assert c[k] == rest[k - |ab|]; } else { assert c[k] == ab[k]; }
      if j >= |ab| { assert c[j] == rest[j - |ab|]; } else { assert c[j] == ab[j]; }
    }
  }

  /** Candidates come in strictly increasing length, so no two tie. */
  lemma {:induction false} CandidatesIncreasing(tokens: seq<Token>, wordExists: string -> bool, i: nat)
    requires NonEmptyPatterns(tokens)
    ensures Bounded(Candidates(tokens, wordExists, i), 2 * i + 1, |tokens|)
    ensures Increasing(Candidates(tokens, wordExists, i))
    decreases |tokens| - i
  {
    if i < |tokens| {
      CandidatesIncreasing(tokens, wordExists, i + 1);
      StepLengths(tokens, wordExists, i);
      var ab := Looked(Build(tokens[..i], First(tokens[i].pattern)), wordExists)
                + Looked(Build(tokens[..i + 1], None), wordExists);
      var rest := Candidates(tokens, wordExists, i + 1);
      ConcatIncreasing(ab, rest, 2 * i + 1, |tokens|);
      assert ab + rest == Candidates(tokens, wordExists, i);
    }
  }

  /** The running `set_or_compare` fold over proposals. */
  function Select(root: Option<RootProposal>, cands: seq<RootProposal>): (r: Option<RootProposal>)
    ensures root.Some? || cands != [] ==> r.Some?
    ensures r.Some? ==> r == root || r.value in cands
    decreases |cands|
  {
    if cands == [] then root else Select(SetOrCompare(root, cands[0]), cands[1..])
  }

  /** The fold keeps a proposal that no other proposal is preferred over,
      provided no two lengths tie. */
  lemma {:induction false} SelectBest(root: Option<RootProposal>, cands: seq<RootProposal>)
    requires Increasing(cands)
    requires root.Some? ==> forall k | 0 <= k < |cands| :: Length(root.value) < Length(cands[k])
    ensures root.Some? || cands != [] ==> Select(root, cands).Some?
    ensures Select(root, cands).Some? ==>
              forall k | 0 <= k < |cands| ::
                cands[k] == Select(root, cands).value || !PreferredOver(cands[k], Select(root, cands).value)
    ensures Select(root, cands).Some? && root.Some? ==>
              root.value == Select(root, cands).value || PreferredOver(Select(root, cands).value, root.value)
    decreases |cands|
  {
    if cands != [] {
      var c0 := cands[0];
      var rest := cands[1..];
      var next := SetOrCompare(root, c0);
      assert forall k | 0 <= k < |rest| :: rest[k] == cands[k + 1];
      SelectBest(next, rest);
      var r := Select(next, rest).value;
      assert Select(root, cands) == Some(r);
      // Where `r` is not the running best it was one of the later proposals.
      var later := r != next.value;
      var at: nat := 0;
      if later {
        var i :| 0 <= i < |rest| && rest[i] == r;
        at := i + 1;
        assert cands[at] == r;
      }
      if root.Some? && r != root.value {
        if next != root && r != c0 {
          PreferredOverTransitive(r, c0, root.value);
        }
      }
      forall k | 0 <= k < |cands| ensures cands[k] == r || !PreferredOver(cands[k], r) {
        if k == 0 {
          if c0 != r {
            if next == Some(c0) {
              PreferredOverAsymmetric(r, c0);
            } else if r != root.value {
              PreferredOverTransitive(c0, r, root.value);
            }
          }
        } else {
          assert cands[k] == rest[k - 1];
        }
      }
    }
  }

  /** Every element of every token, in order. */
  function Flatten(tokens: seq<Token>): (r: seq<Element>)
    ensures NonEmptyPatterns(tokens) && tokens != [] ==> |r| >= 1 && r[0] == tokens[0].pattern[0]
  {
    if tokens == [] then [] else tokens[0].pattern + Flatten(tokens[1..])
  }

  /** What `normalize` returns: the root word and the pattern with the root's
      part replaced by one `*` element tagged with the normalised POS. With no
      proposal the first element's text becomes the root ("다" added for a
      `V*` tag) and is itself replaced by `*`. */
  function NormalizeResult(tokens: seq<Token>, root: Option<RootProposal>): (r: (string, seq<Element>))
    requires NonEmptyPatterns(tokens) && tokens != []
    requires root.Some? ==> root.value.tokensConsumed + (if root.value.extraElement then 1 else 0) <= |tokens|
    ensures |r.1| >= 1 && r.1[0].text == "*"
    ensures root.Some? ==> r.0 == root.value.word && r.1[0].pos == NormalizePos(root.value.pos)
  {
    match root
    case None =>
      var pattern := Flatten(tokens);
      var first := pattern[0];
      (first.text + (if StartsWith(first.pos, 'V') then Da else []), [first.(text := "*")] + pattern[1..])
    case Some(p) =>
      var rest := tokens[p.tokensConsumed..];
      var head := [Element("*", NormalizePos(p.pos))];
      if p.extraElement then (p.word, head + rest[0].pattern[1..] + Flatten(rest[1..]))
      else (p.word, head + Flatten(rest))
  }

  function NormalizeSpec(tokens: seq<Token>, wordExists: string -> bool): (string, seq<Element>)
    requires NonEmptyPatterns(tokens) && tokens != []
  {
    var cands := Candidates(tokens, wordExists, 0);
    CandidatesFit(tokens, wordExists, 0);
    NormalizeResult(tokens, Select(None, cands))
  }

  /** Every candidate's consumed tokens (and extra element's token) exist. */
  lemma {:induction false} CandidatesFit(tokens: seq<Token>, wordExists: string -> bool, i: nat)
    ensures forall c | c in Candidates(tokens, wordExists, i) ::
              c.tokensConsumed + (if c.extraElement then 1 else 0) <= |tokens|
    decreases |tokens| - i
  {
    if i < |tokens| {
      CandidatesFit(tokens, wordExists, i + 1);
    }
  }

  /** The root `normalize` picks is a proposal, and no other proposal is
      preferred over it; with no proposal the first element supplies the root. */
  lemma NormalizeChoosesBest(tokens: seq<Token>, wordExists: string -> bool)
    requires NonEmptyPatterns(tokens) && tokens != []
    ensures Select(None, Candidates(tokens, wordExists, 0)).Some? <==> Candidates(tokens, wordExists, 0) != []
    ensures Select(None, Candidates(tokens, wordExists, 0)).Some? ==>
              var cands := Candidates(tokens, wordExists, 0);
              var best := Select(None, cands).value;
              best in cands && NormalizeSpec(tokens, wordExists).0 == best.word
              && forall k | 0 <= k < |cands| :: cands[k] == best || !PreferredOver(cands[k], best)
    ensures Select(None, Candidates(tokens, wordExists, 0)).None? ==>
              NormalizeSpec(tokens, wordExists).0
              == tokens[0].pattern[0].text + (if StartsWith(tokens[0].pattern[0].pos, 'V') then Da else [])
  {
    var cands := Candidates(tokens, wordExists, 0);
    CandidatesIncreasing(tokens, wordExists, 0);
    SelectBest(None, cands);
    CandidatesFit(tokens, wordExists, 0);
    assert NormalizeSpec(tokens, wordExists) == NormalizeResult(tokens, Select(None, cands));
  }

  /** `normalize`: the proposal loop, then the pattern rewrite. */
  method Normalize(tokens: seq<Token>, wordExists: string -> bool) returns (root: string, pattern: seq<Element>)
    requires NonEmptyPatterns(tokens) && tokens != []
    ensures (root, pattern) == NormalizeSpec(tokens, wordExists)
  {
    var best: Option<RootProposal> := None;
    for i := 0 to |tokens|
      invariant Select(best, Candidates(tokens, wordExists, i)) == Select(None, Candidates(tokens, wordExists, 0))
    {
      var withExtra := Build(tokens[..i], First(tokens[i].pattern));
      var next := best;
      if withExtra.Some? {
        var proposal := withExtra.value.(inDict := wordExists(withExtra.value.word));
        next := SetOrCompare(next, proposal);
      }
      var whole := Build(tokens[..i + 1], None);
      if whole.Some? {
        var proposal := whole.value.(inDict := wordExists(whole.value.word));
        next := SetOrCompare(next, proposal);
      }
      SelectAppend(best, Looked(withExtra, wordExists), Looked(whole, wordExists), Candidates(tokens, wordExists, i + 1));
      best := next;
    }
    CandidatesFit(tokens, wordExists, 0);
    assert Select(best, []) == best;
    root, pattern := NormalizeResult(tokens, best).0, NormalizeResult(tokens, best).1;
  }

  lemma SelectAppend(root: Option<RootProposal>, a: seq<RootProposal>, b: seq<RootProposal>, rest: seq<RootProposal>)
    requires |a| <= 1 && |b| <= 1
    ensures Select(root, a + b + rest) ==
              Select(Select(Select(root, a), b), rest)
  {
    assert a + b + rest == a + (b + rest);
    SelectOne(root, a, b + rest);
    SelectOne(Select(root, a), b, rest);
  }

  /** Folding over at most one proposal and then the rest is folding over both. */
  lemma SelectOne(root: Option<RootProposal>, a: seq<RootProposal>, rest: seq<RootProposal>)
    requires |a| <= 1
    ensures Select(root, a + rest) == Select(Select(root, a), rest)
  {
    if a == [] {
      assert a + rest == rest;
    } else {
      assert (a + rest)[1..] == rest;
      assert a[1..] == [];
    }
  }
}
