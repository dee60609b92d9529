/** Pattern reduction and word building in src/morph.rs: the rule trie is
    walked from every position of a pattern, the first usable rule rewrites
    the pattern (or names its translation), and `tokens_to_word` repeats this
    until the pattern is translated or irreducible. */
module KoreanReduce {
  import opened Common
  import opened Pattern
  import opened KoreanRoot
  import Dict

  datatype Reduction = Step | Terminal(translation: string)

  // ---------------------------------------------------------------------
  // Walking the trie

  /** The inner loop of `reduce_pattern_once`: follow `elems` down from `node`
      while a child exists, remembering the last rule passed. */
  function Deepest(node: RuleTrie, rule: Option<Rule>, elems: seq<Element>): Option<Rule>
    decreases |elems|
  {
    if elems == [] || elems[0] !in node.children then rule
    else
      var child := node.children[elems[0]];
      Deepest(child, if child.rule.Some? then child.rule else rule, elems[1..])
  }

  /** The rule the walk from position `i` finds. */
  function MatchAt(trie: RuleTrie, pattern: seq<Element>, i: nat): Option<Rule>
    requires i <= |pattern|
  {
    Deepest(trie, trie.rule, pattern[i..])
  }

  /** The length of the longest non-empty prefix of `elems`, at most `m` long,
      that has a rule, or 0 if none has. */
  function LongestRuleLen(t: RuleTrie, elems: seq<Element>, m: nat): (k: nat)
    requires m <= |elems|
    ensures k <= m
    ensures k > 0 ==> RuleAt(t, elems[..k]).Some?
    ensures forall k' | k < k' <= m :: RuleAt(t, elems[..k']).None?
    decreases m
  {
    if m == 0 then 0
    else if RuleAt(t, elems[..m]).Some? then m
    else LongestRuleLen(t, elems, m - 1)
  }

  /** Only one length satisfies the contract of `LongestRuleLen`. */
  lemma LongestUnique(t: RuleTrie, elems: seq<Element>, m: nat, k: nat)
    requires k <= m <= |elems|
    requires k > 0 ==> RuleAt(t, elems[..k]).Some?
    requires forall k' | k < k' <= m :: RuleAt(t, elems[..k']).None?
    ensures k == LongestRuleLen(t, elems, m)
  {
    var l := LongestRuleLen(t, elems, m);
    assert l > 0 ==> RuleAt(t, elems[..l]).Some?;
  }

  /** One step down the trie shifts every prefix by one element. */
  lemma RuleAtChild(node: RuleTrie, elems: seq<Element>, k: nat)
    requires 1 <= k <= |elems| && elems[0] in node.children
    ensures RuleAt(node, elems[..k]) == RuleAt(node.children[elems[0]], elems[1..][..k - 1])
  {
    assert elems[..k][0] == elems[0];
    assert elems[..k][1..] == elems[1..][..k - 1];
  }

  /** The walk returns the rule at the longest prefix that has one, or the
      rule it started with when no non-empty prefix has one. */
  lemma {:induction false} DeepestIsLongest(node: RuleTrie, rule: Option<Rule>, elems: seq<Element>)
    ensures var k := LongestRuleLen(node, elems, |elems|);
            Deepest(node, rule, elems) == if k > 0 then RuleAt(node, elems[..k]) else rule
    decreases |elems|
  {
    var n := |elems|;
    if elems == [] || elems[0] !in node.children {
      forall k' | 0 < k' <= n ensures RuleAt(node, elems[..k']).None? {
        assert elems[..k'][0] == elems[0];
      }
      LongestUnique(node, elems, n, 0);
    } else {
      var child := node.children[elems[0]];
      var rule' := if child.rule.Some? then child.rule else rule;
      var tail := elems[1..];
      DeepestIsLongest(child, rule', tail);
      var kc := LongestRuleLen(child, tail, |tail|);
      forall k' | 1 <= k' <= n ensures RuleAt(node, elems[..k']) == RuleAt(child, tail[..k' - 1]) {
        RuleAtChild(node, elems, k');
      }
      assert RuleAt(child, tail[..0]) == child.rule by {
        assert tail[..0] == [];
      }
      if kc > 0 {
        LongestUnique(node, elems, n, kc + 1);
      } else if child.rule.Some? {
        LongestUnique(node, elems, n, 1);
      } else {
        LongestUnique(node, elems, n, 0);
      }
    }
  }

  /** In a well-formed trie the rule found at `i` is spelled by the elements
      starting at `i`, and is the rule stored for its own pattern. */
  lemma MatchFits(trie: RuleTrie, pattern: seq<Element>, i: nat)
    requires WellFormed(trie) && i <= |pattern| && MatchAt(trie, pattern, i).Some?
    ensures var rule := MatchAt(trie, pattern, i).value;
            i + |rule.pattern| <= |pattern| && pattern[i..i + |rule.pattern|] == rule.pattern
            && RuleAt(trie, rule.pattern) == Some(rule)
  {
    var elems := pattern[i..];
    DeepestIsLongest(trie, trie.rule, elems);
    var k := LongestRuleLen(trie, elems, |elems|);
    var rule := MatchAt(trie, pattern, i).value;
    if k > 0 {
      assert RuleAt(trie, elems[..k]) == Some(rule);
      assert elems[..k] == pattern[i..i + k];
    } else {
      assert Node(trie, []) == Some(trie);
      assert RuleAt(trie, []) == Some(rule);
      assert pattern[i..i] == [];
    }
  }

  // ---------------------------------------------------------------------
  // One reduction

  /** A position where the outer loop stops: a rule was found there and it is
      either a rewrite or a translation of the whole pattern. */
  predicate Usable(trie: RuleTrie, pattern: seq<Element>, i: nat)
    requires i <= |pattern|
  {
    var rule := MatchAt(trie, pattern, i);
    rule.Some? && (rule.value.translation.None? || (i == 0 && |pattern| == |rule.value.pattern|))
  }

  /** The outer loop of `reduce_pattern_once`: the first usable position from
      `from` on, with its rule. */
  function Scan(trie: RuleTrie, pattern: seq<Element>, from: nat): (r: Option<(nat, Rule)>)
    ensures r.Some? ==> from <= r.value.0 < |pattern| && Usable(trie, pattern, r.value.0)
                        && MatchAt(trie, pattern, r.value.0) == Some(r.value.1)
    ensures r.Some? ==> forall j | from <= j < r.value.0 :: !Usable(trie, pattern, j)
    ensures r.None? ==> forall j | from <= j < |pattern| :: !Usable(trie, pattern, j)
    decreases |pattern| - from
  {
    if from >= |pattern| then None
    else if Usable(trie, pattern, from) then Some((from, MatchAt(trie, pattern, from).value))
    else Scan(trie, pattern, from + 1)
  }

  /** The state after one call: what happened and the pattern, parents and
      tags as the call leaves them. */
  datatype ReduceState = ReduceState(
    reduction: Option<Reduction>,
    pattern: seq<Element>,
    parents: seq<string>,
    tags: seq<string>)

  function OutputOf(rule: Rule): seq<Element> {
    if rule.output.Some? then rule.output.value else []
  }

  /** `reduce_pattern_once`: the first usable rule adds its parents and tags
      (only those not yet present); a translation ends the reduction, anything
      else replaces the matched elements by the rule's output. */
  function ReduceOnce(trie: RuleTrie, pattern: seq<Element>, parents: seq<string>, tags: seq<string>): ReduceState
    requires WellFormed(trie)
  {
    var same := ReduceState(None, pattern, parents, tags);
    if pattern == [] then same
    else match Scan(trie, pattern, 0)
      case None => same
      case Some((i, rule)) =>
        var parents' := AppendAbsent(parents, rule.parents);
        var tags' := AppendAbsent(tags, rule.tags);
        if rule.translation.Some? then ReduceState(Some(Terminal(rule.translation.value)), pattern, parents', tags')
        else
          MatchFits(trie, pattern, i);
          var j := i + |rule.pattern|;
          ReduceState(Some(Step), pattern[..i] + OutputOf(rule) + pattern[j..], parents', tags')
  }

  /** Nothing happens exactly when no position is usable, and then nothing
      changes. */
  lemma ReduceOnceNone(trie: RuleTrie, pattern: seq<Element>, parents: seq<string>, tags: seq<string>)
    requires WellFormed(trie)
    ensures var s := ReduceOnce(trie, pattern, parents, tags);
            s.reduction.None? <==> forall j | 0 <= j < |pattern| :: !Usable(trie, pattern, j)
    ensures var s := ReduceOnce(trie, pattern, parents, tags);
            s.reduction.None? ==> s == ReduceState(None, pattern, parents, tags)
  {
  }

  /** A translation is reported only for a rule stored for the whole pattern;
      the pattern is kept and the rule's parents and tags are added. */
  lemma ReduceOnceTerminal(trie: RuleTrie, pattern: seq<Element>, parents: seq<string>, tags: seq<string>)
    requires WellFormed(trie)
    requires ReduceOnce(trie, pattern, parents, tags).reduction.Some?
    requires ReduceOnce(trie, pattern, parents, tags).reduction.value.Terminal?
    ensures var s := ReduceOnce(trie, pattern, parents, tags);
            RuleAt(trie, pattern).Some? && RuleAt(trie, pattern).value.translation == Some(s.reduction.value.translation)
            && s.pattern == pattern
            && s.parents == AppendAbsent(parents, RuleAt(trie, pattern).value.parents)
            && s.tags == AppendAbsent(tags, RuleAt(trie, pattern).value.tags)
  {
    var (i, rule) := Scan(trie, pattern, 0).value;
    MatchFits(trie, pattern, i);
    assert pattern[0..|pattern|] == pattern;
  }

  /** A rewrite happens at the first usable position, with the rule stored for
      the elements it replaces, and splices in the rule's output. */
  lemma ReduceOnceStep(trie: RuleTrie, pattern: seq<Element>, parents: seq<string>, tags: seq<string>)
    requires WellFormed(trie)
    requires ReduceOnce(trie, pattern, parents, tags).reduction == Some(Step)
    ensures Scan(trie, pattern, 0).Some?
    ensures var s := ReduceOnce(trie, pattern, parents, tags);
            var (i, rule) := Scan(trie, pattern, 0).value;
            var j := i + |rule.pattern|;
            rule.translation.None? && j <= |pattern| && pattern[i..j] == rule.pattern
            && RuleAt(trie, rule.pattern) == Some(rule)
            && (forall k | 0 <= k < i :: !Usable(trie, pattern, k))
            && s.pattern == pattern[..i] + OutputOf(rule) + pattern[j..]
            && s.parents == AppendAbsent(parents, rule.parents)
            && s.tags == AppendAbsent(tags, rule.tags)
  {
    var (i, rule) := Scan(trie, pattern, 0).value;
    MatchFits(trie, pattern, i);
  }

  /** The call keeps the parents it was given, in order, and adds none twice. */
  lemma ReduceOnceKeepsParents(trie: RuleTrie, pattern: seq<Element>, parents: seq<string>, tags: seq<string>)
    requires WellFormed(trie)
    ensures var s := ReduceOnce(trie, pattern, parents, tags);
            parents <= s.parents && tags <= s.tags && (NoDup(parents) ==> NoDup(s.parents))
  {
    var s := ReduceOnce(trie, pattern, parents, tags);
    if s.reduction.Some? {
      var rule := Scan(trie, pattern, 0).value.1;
      AppendAbsentSpec(parents, rule.parents);
      AppendAbsentSpec(tags, rule.tags);
    }
  }

  /** The walk of `reduce_pattern_once` from position `i`. */
  method FindRule(trie: RuleTrie, pattern: seq<Element>, i: nat) returns (rule: Option<Rule>)
    requires i <= |pattern|
    ensures rule == MatchAt(trie, pattern, i)
  {
    rule := trie.rule;
    var node := trie;
    var k := i;
    while k < |pattern| && pattern[k] in node.children
      invariant i <= k <= |pattern|
      invariant Deepest(node, rule, pattern[k..]) == MatchAt(trie, pattern, i)
      decreases |pattern| - k
    {
      assert pattern[k..][1..] == pattern[k + 1..];
      var child := node.children[pattern[k]];
      node := child;
      if child.rule.Some? {
        rule := child.rule;
      }
      k := k + 1;
    }
  }

  /** `reduce_pattern_once`, updating the pattern, parents and tags. */
  method ReducePatternOnce(trie: RuleTrie, pattern: seq<Element>, parents: seq<string>, tags: seq<string>)
    returns (r: Option<Reduction>, pattern': seq<Element>, parents': seq<string>, tags': seq<string>)
    requires WellFormed(trie)
    ensures ReduceState(r, pattern', parents', tags') == ReduceOnce(trie, pattern, parents, tags)
  {
    r, pattern', parents', tags' := None, pattern, parents, tags;
    if pattern == [] {
      return;
    }
    var n := |pattern|;
    for i := 0 to n
      invariant Scan(trie, pattern, i) == Scan(trie, pattern, 0)
    {
      var rule := FindRule(trie, pattern, i);
      if rule.Some? && !(rule.value.translation.Some? && !(i == 0 && n == |rule.value.pattern|)) {
        var found := rule.value;
        parents' := PushAbsent(parents, found.parents);
        tags' := PushAbsent(tags, found.tags);
        if found.translation.Some? {
          r := Some(Terminal(found.translation.value));
          return;
        }
        MatchFits(trie, pattern, i);
        var j := i + |found.pattern|;
        pattern' := pattern[..i] + OutputOf(found) + pattern[j..];
        r := Some(Step);
        return;
      }
    }
  }

  // ---------------------------------------------------------------------
  // From tokens to a word

  /** How the reduction loop ends. */
  datatype Outcome =
    | Translated(translation: string, parents: seq<string>, tags: seq<string>)
    | Irreducible(pattern: seq<Element>, parents: seq<string>, tags: seq<string>)

  /** The loop `while let Some(r) = reduce_pattern_once(..)`, allowed `fuel`
      calls: a rule set can rewrite a pattern forever. */
  function ReduceAll(trie: RuleTrie, pattern: seq<Element>, parents: seq<string>, tags: seq<string>, fuel: nat): (r: Result<Outcome>)
    requires WellFormed(trie)
    ensures r.Err? ==> r.error == Exhausted
    decreases fuel
  {
    if fuel == 0 then Err(Exhausted)
    else
      var s := ReduceOnce(trie, pattern, parents, tags);
      match s.reduction
      case None => Ok(Irreducible(pattern, parents, tags))
      case Some(Terminal(tr)) => Ok(Translated(tr, s.parents, s.tags))
      case Some(Step) => ReduceAll(trie, s.pattern, s.parents, s.tags, fuel - 1)
  }

  /** An outcome reached with some fuel is reached with more. */
  lemma {:induction false} ReduceAllFuel(trie: RuleTrie, pattern: seq<Element>, parents: seq<string>, tags: seq<string>, fuel: nat, more: nat)
    requires WellFormed(trie) && fuel <= more
    requires ReduceAll(trie, pattern, parents, tags, fuel) != Err(Exhausted)
    ensures ReduceAll(trie, pattern, parents, tags, more) == ReduceAll(trie, pattern, parents, tags, fuel)
    decreases fuel
  {
    var s := ReduceOnce(trie, pattern, parents, tags);
    if s.reduction == Some(Step) {
      ReduceAllFuel(trie, s.pattern, s.parents, s.tags, fuel - 1, more - 1);
    }
  }

  /** The loop only adds parents and tags, never twice the same parent; an
      irreducible outcome has no usable position left, and a translation is
      that of a rule in the trie. */
  lemma {:induction false} ReduceAllOutcome(trie: RuleTrie, pattern: seq<Element>, parents: seq<string>, tags: seq<string>, fuel: nat)
    requires WellFormed(trie)
    requires ReduceAll(trie, pattern, parents, tags, fuel).Ok?
    ensures var o := ReduceAll(trie, pattern, parents, tags, fuel).value;
            parents <= o.parents && tags <= o.tags && (NoDup(parents) ==> NoDup(o.parents))
    ensures var o := ReduceAll(trie, pattern, parents, tags, fuel).value;
            o.Irreducible? ==> forall j | 0 <= j < |o.pattern| :: !Usable(trie, o.pattern, j)
    ensures var o := ReduceAll(trie, pattern, parents, tags, fuel).value;
            o.Translated? ==> exists p :: RuleAt(trie, p).Some? && RuleAt(trie, p).value.translation == Some(o.translation)
    decreases fuel
  {
    var s := ReduceOnce(trie, pattern, parents, tags);
    ReduceOnceKeepsParents(trie, pattern, parents, tags);
    match s.reduction
    case None =>
      ReduceOnceNone(trie, pattern, parents, tags);
    case Some(Terminal(tr)) =>
      ReduceOnceTerminal(trie, pattern, parents, tags);
    case Some(Step) =>
      ReduceAllOutcome(trie, s.pattern, s.parents, s.tags, fuel - 1);
  }

  /** The parser's state that `tokens_to_word` uses: the rule trie, the
      dictionary's `word_exists`, and the bound on reduction steps. */
  datatype Parser = Parser(
    rules: RuleTrie,
    overrides: map<string, seq<seq<Token>>>,
    wordExists: string -> bool,
    fuel: nat)

  const NoTokens := AppError("word has no tokens")

  function LastPos(pattern: seq<Element>): string
    requires pattern != []
  {
    pattern[|pattern| - 1].pos
  }

  /** `tokens_to_word`. A pattern of one element, or a root equal to the
      segment text, is a root word of unknown status; otherwise the word's
      parents start with the root and the reduction decides: a translation
      makes a word that inherits its status, an irreducible pattern a word of
      unknown status whose translation shows the pattern in backquotes. */
  function TokensToWordSpec(parser: Parser, text: string, tokens: seq<Token>): Result<Dict.Word>
    requires WellFormed(parser.rules) && NonEmptyPatterns(tokens)
  {
    if tokens == [] then Err(NoTokens)
    else
      var (root, pattern) := NormalizeSpec(tokens, parser.wordExists);
      var tags := PosTags(LastPos(pattern));
      if |pattern| == 1 || root == text then
        Ok(Dict.EmptyWord.(text := text, tags := tags, status := Some(Dict.Unknown)))
      else
        var outcome :- ReduceAll(parser.rules, pattern, [root], tags, parser.fuel);
        Ok(WordOf(text, outcome))
  }

  /** The word the reduction loop returns. */
  function WordOf(text: string, outcome: Outcome): Dict.Word
  {
    match outcome
    case Translated(tr, parents, tags) =>
      Dict.EmptyWord.(text := text, parents := parents, tags := tags, translation := tr, inherit := true)
    case Irreducible(p, parents, tags) =>
      Dict.EmptyWord.(text := text, parents := parents, tags := tags, status := Some(Dict.Unknown),
                      translation := "`" + ShowPattern(p) + "`")
  }

  /** What a built word looks like: its text is the segment's, its tags start
      with those of the final part of speech, a word with parents has the root
      first and no parent twice, and a word inherits its status exactly when
      a rule translated it. The only errors are an empty token list and a
      reduction that does not end. */
  lemma TokensToWordShape(parser: Parser, text: string, tokens: seq<Token>)
    requires WellFormed(parser.rules) && NonEmptyPatterns(tokens)
    ensures var r := TokensToWordSpec(parser, text, tokens);
            r.Err? ==> tokens == [] || r.error == Exhausted
    ensures var r := TokensToWordSpec(parser, text, tokens);
            r.Ok? ==>
              var w := r.value;
              w.text == text && w.id.None?
              && (w.inherit <==> w.status.None?)
              && (!w.inherit ==> w.status == Some(Dict.Unknown))
    ensures var r := TokensToWordSpec(parser, text, tokens);
            r.Ok? && r.value.parents != [] ==>
              r.value.parents[0] == NormalizeSpec(tokens, parser.wordExists).0 && NoDup(r.value.parents)
    ensures var r := TokensToWordSpec(parser, text, tokens);
            r.Ok? ==> PosTags(LastPos(NormalizeSpec(tokens, parser.wordExists).1)) <= r.value.tags
  {
    if tokens != [] {
      var (root, pattern) := NormalizeSpec(tokens, parser.wordExists);
      var tags := PosTags(LastPos(pattern));
      if !(|pattern| == 1 || root == text) {
        var o := ReduceAll(parser.rules, pattern, [root], tags, parser.fuel);
        if o.Ok? {
          ReduceAllOutcome(parser.rules, pattern, [root], tags, parser.fuel);
        }
      }
    }
  }

  /** `tokens_to_word`, with its reduction loop. */
  method TokensToWord(parser: Parser, text: string, tokens: seq<Token>) returns (r: Result<Dict.Word>)
    requires WellFormed(parser.rules) && NonEmptyPatterns(tokens)
    ensures r == TokensToWordSpec(parser, text, tokens)
  {
    if tokens == [] {
      return Err(NoTokens);
    }
    var root, pattern := Normalize(tokens, parser.wordExists);
    var tags := PosTags(LastPos(pattern));
    if |pattern| == 1 || root == text {
      return Ok(Dict.EmptyWord.(text := text, tags := tags, status := Some(Dict.Unknown)));
    }
    var outcome := RunReductions(parser.rules, pattern, [root], tags, parser.fuel);
    if outcome.Err? {
      return Err(outcome.error);
    }
    return Ok(WordOf(text, outcome.value));
  }

  /** The loop of `tokens_to_word` that calls `reduce_pattern_once` until it
      reports a translation or nothing to do. */
  method RunReductions(trie: RuleTrie, pattern: seq<Element>, parents: seq<string>, tags: seq<string>, fuel: nat)
    returns (r: Result<Outcome>)
    requires WellFormed(trie)
    ensures r == ReduceAll(trie, pattern, parents, tags, fuel)
  {
    var pattern, parents, tags, fuel := pattern, parents, tags, fuel;
    ghost var start := ReduceAll(trie, pattern, parents, tags, fuel);
    while fuel > 0
      invariant ReduceAll(trie, pattern, parents, tags, fuel) == start
      decreases fuel
    {
      var red, pattern', parents', tags' := ReducePatternOnce(trie, pattern, parents, tags);
      match red
      case None =>
        return Ok(Irreducible(pattern, parents, tags));
      case Some(Terminal(tr)) =>
        return Ok(Translated(tr, parents', tags'));
      case Some(Step) =>
        pattern, parents, tags, fuel := pattern', parents', tags', fuel - 1;
    }
    return Err(Exhausted);
  }
}
