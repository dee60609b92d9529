/** The sentence finder of src/bin/find_sentences.rs: the readability order on
    candidate sentences and the sliding window that cuts sentences around
    occurrences of a target word. The words of one text sentence arrive
    already rated: their optimistic status and whether they are (or derive
    from) the target word come from the dictionary store. */
module FindSentences {
  import opened Common
  import opened Dict

  datatype SentenceWord = SentenceWord(text: string, status: WordStatus, isTarget: bool)

  datatype Sentence = Sentence(words: seq<SentenceWord>)

  datatype Ordering = Less | Equal | Greater

  function Reverse(o: Ordering): Ordering {
    match o
    case Less => Greater
    case Equal => Equal
    case Greater => Less
  }

  /** `Ord::cmp` on integers. */
  function CmpInt(a: int, b: int): Ordering {
    if a < b then Less else if a > b then Greater else Equal
  }

  // ---------------------------------------------------------------------
  // min_non_target_status

  /** A word that takes part in the minimum: not the target, not Ignored. */
  predicate Counted(w: SentenceWord) {
    !w.isTarget && w.status != Ignored
  }

  /** The accumulator of `min_non_target_status` after the words `ws`. */
  function MinStatus(ws: seq<SentenceWord>): Option<WordStatus> {
    if ws == [] then None
    else
      var st := MinStatus(ws[..|ws| - 1]);
      var w := ws[|ws| - 1];
      if w.isTarget || w.status == Ignored then st
      else match st
        case None => Some(w.status)
        case Some(a) => Some(Min(a, w.status))
  }

  /** The minimum is absent exactly when no word is counted; otherwise it is
      the status of a counted word and no counted word is below it. */
  lemma {:induction false} MinStatusSpec(ws: seq<SentenceWord>)
    ensures MinStatus(ws).None? <==> forall i | 0 <= i < |ws| :: !Counted(ws[i])
    ensures MinStatus(ws).Some? ==>
      (exists i | 0 <= i < |ws| :: Counted(ws[i]) && ws[i].status == MinStatus(ws).value)
      && forall i | 0 <= i < |ws| && Counted(ws[i]) :: Le(MinStatus(ws).value, ws[i].status)
  {
    if ws != [] {
      var init := ws[..|ws| - 1];
      MinStatusSpec(init);
      assert forall i | 0 <= i < |init| :: init[i] == ws[i];
      var n := |ws| - 1;
      if MinStatus(ws).Some? {
        if MinStatus(ws) == MinStatus(init) {
          var i :| 0 <= i < |init| && Counted(init[i]) && init[i].status == MinStatus(init).value;
          assert Counted(ws[i]) && ws[i].status == MinStatus(ws).value;
        } else {
          assert Counted(ws[n]);
        }
      }
    }
  }

  /** `min_non_target_status`: folds the minimum over the non-target words,
      skipping Ignored ones. */
  method MinNonTargetStatus(s: Sentence) returns (r: Option<WordStatus>)
    ensures r == MinStatus(s.words)
  {
    var ws := s.words;
    r := None;
    for k := 0 to |ws|
      invariant r == MinStatus(ws[..k])
    {
      assert ws[..k + 1][..k] == ws[..k];
      var w := ws[k];
      if !w.isTarget {
        r := match (r, w.status) {
          case (st, Ignored) => st
          case (None, st) => Some(st)
          case (Some(a), b) => Some(Min(a, b))
        };
      }
    }
    assert ws[..|ws|] == ws;
  }

  // ---------------------------------------------------------------------
  // compare_readability

  /** The statuses whose counts break ties, in the order they are tried. */
  const Levels: seq<WordStatus> := [Unknown, New, Level2, Level3, Level4, Level5, WellKnown]

  /** Non-target words of status `st`. */
  function CountAt(ws: seq<SentenceWord>, st: WordStatus): nat {
    if ws == [] then 0
    else CountAt(ws[1..], st) + (if !ws[0].isTarget && ws[0].status == st then 1 else 0)
  }

  /** The tie-break from the `i`-th level on: fewer words at a level wins,
      and after the last level the longer sentence wins. */
  function TieBreak(a: seq<SentenceWord>, b: seq<SentenceWord>, i: nat): Ordering
    decreases |Levels| - i
  {
    if i >= |Levels| then CmpInt(|a|, |b|)
    else
      var ca, cb := CountAt(a, Levels[i]), CountAt(b, Levels[i]);
      if ca < cb then Greater
      else if ca > cb then Less
      else TieBreak(a, b, i + 1)
  }

  /** `compare_readability`: Greater means `a` is the easier read. */
  function Compare(a: Sentence, b: Sentence): Ordering {
    match (MinStatus(a.words), MinStatus(b.words))
    case (None, None) => Equal
    case (Some(_), None) => Greater
    case (None, Some(_)) => Less
    case (Some(x), Some(y)) =>
      if x != y then CmpInt(Rank(x), Rank(y)) else TieBreak(a.words, b.words, 0)
  }

  /** Lexicographic comparison of integer sequences of equal length. */
  function Lex(a: seq<int>, b: seq<int>): Ordering
    requires |a| == |b|
  {
    if a == [] then Equal
    else if a[0] < b[0] then Less
    else if a[0] > b[0] then Greater
    else Lex(a[1..], b[1..])
  }

  /** The tie-break keys from the `i`-th level on: negated counts, then the
      length. */
  function Counts(ws: seq<SentenceWord>, i: nat): (r: seq<int>)
    requires i <= |Levels|
    ensures |r| == |Levels| + 1 - i
    decreases |Levels| - i
  {
    if i == |Levels| then [|ws|]
    else
      var c: int := CountAt(ws, Levels[i]);
      [-c] + Counts(ws, i + 1)
  }

  /** The sort key of a sentence: all zeros without a minimum status;
      otherwise 1, the rank of the minimum, then the tie-break keys. */
  function Key(s: Sentence): (r: seq<int>)
    ensures |r| == |Levels| + 3
  {
    match MinStatus(s.words)
    case None => seq(|Levels| + 3, _ => 0)
    case Some(x) => [1, Rank(x)] + Counts(s.words, 0)
  }

  lemma {:induction false} LexReverse(a: seq<int>, b: seq<int>)
    requires |a| == |b|
    ensures Lex(b, a) == Reverse(Lex(a, b))
  {
    if a != [] {
      LexReverse(a[1..], b[1..]);
    }
  }

  lemma {:induction false} LexEqual(a: seq<int>, b: seq<int>)
    requires |a| == |b|
    ensures Lex(a, b) == Equal <==> a == b
  {
    if a != [] {
      LexEqual(a[1..], b[1..]);
      if a[0] == b[0] && a[1..] == b[1..] {
        assert a == [a[0]] + a[1..] && b == [b[0]] + b[1..];
      }
    }
  }

  lemma {:induction false} LexTransitive(a: seq<int>, b: seq<int>, c: seq<int>)
    requires |a| == |b| == |c|
    requires Lex(a, b) != Less && Lex(b, c) != Less
    ensures Lex(a, c) != Less
  {
    if a != [] && a[0] == b[0] == c[0] {
      LexTransitive(a[1..], b[1..], c[1..]);
    }
  }

  lemma {:induction false} TieBreakLex(a: seq<SentenceWord>, b: seq<SentenceWord>, i: nat)
    requires i <= |Levels|
    ensures TieBreak(a, b, i) == Lex(Counts(a, i), Counts(b, i))
    decreases |Levels| - i
  {
    if i < |Levels| {
      TieBreakLex(a, b, i + 1);
      assert Counts(a, i)[1..] == Counts(a, i + 1);
      assert Counts(b, i)[1..] == Counts(b, i + 1);
    }
  }

  /** `compare_readability` is the lexicographic order of the keys. */
  lemma CompareIsLex(a: Sentence, b: Sentence)
    ensures Compare(a, b) == Lex(Key(a), Key(b))
  {
    var ka, kb := Key(a), Key(b);
    match (MinStatus(a.words), MinStatus(b.words))
    case (None, None) =>
      LexEqual(ka, kb);
    case (Some(x), None) =>
    case (None, Some(y)) =>
    case (Some(x), Some(y)) =>
      RankInjective(x, y);
      assert ka[1..][1..] == Counts(a.words, 0) && kb[1..][1..] == Counts(b.words, 0);
      TieBreakLex(a.words, b.words, 0);
  }

  /** Swapping the arguments reverses the result. */
  lemma CompareAntisymmetric(a: Sentence, b: Sentence)
    ensures Compare(b, a) == Reverse(Compare(a, b))
  {
    CompareIsLex(a, b);
    CompareIsLex(b, a);
    LexReverse(Key(a), Key(b));
  }

  lemma CompareReflexive(a: Sentence)
    ensures Compare(a, a) == Equal
  {
    CompareIsLex(a, a);
    LexEqual(Key(a), Key(a));
  }

  lemma CompareTransitive(a: Sentence, b: Sentence, c: Sentence)
    requires Compare(a, b) != Less && Compare(b, c) != Less
    ensures Compare(a, c) != Less
  {
    CompareIsLex(a, b);
    CompareIsLex(b, c);
    CompareIsLex(a, c);
    LexTransitive(Key(a), Key(b), Key(c));
  }

  /** A sentence with a counted word beats one without; between two such
      sentences the one whose least counted status is higher wins. */
  lemma CompareByMinimum(a: Sentence, b: Sentence)
    ensures (exists i | 0 <= i < |a.words| :: Counted(a.words[i]))
            && (forall i | 0 <= i < |b.words| :: !Counted(b.words[i]))
            ==> Compare(a, b) == Greater
    ensures MinStatus(a.words).Some? && MinStatus(b.words).Some?
            && Lt(MinStatus(b.words).value, MinStatus(a.words).value)
            ==> Compare(a, b) == Greater
  {
    MinStatusSpec(a.words);
    MinStatusSpec(b.words);
  }

  // ---------------------------------------------------------------------
  // Result order

  /** Ordered easiest first, as `sort_by(|a, b| compare_readability(b, a))`
      leaves them. */
  predicate Descending(ss: seq<Sentence>) {
    forall i, j | 0 <= i < j < |ss| :: Compare(ss[i], ss[j]) != Less
  }

  /** Inserts `x` before the first sentence it is not below, so that among
      equals the earlier input comes first. */
  function Insert(x: Sentence, ss: seq<Sentence>): (r: seq<Sentence>)
    requires Descending(ss)
    ensures Descending(r) && multiset(r) == multiset(ss) + multiset{x}
    ensures |r| == |ss| + 1
  {
    if ss == [] then [x]
    else if Compare(x, ss[0]) != Less then
      InsertFront(x, ss);
      [x] + ss
    else
      var rest := Insert(x, ss[1..]);
      CompareAntisymmetric(x, ss[0]);
      InsertBehind(ss[0], ss[1..], x, rest);
      assert ss == [ss[0]] + ss[1..];
      [ss[0]] + rest
  }

  lemma InsertFront(x: Sentence, ss: seq<Sentence>)
    requires Descending(ss) && ss != [] && Compare(x, ss[0]) != Less
    ensures Descending([x] + ss)
  {
    var r := [x] + ss;
    forall i, j | 0 <= i < j < |r| ensures Compare(r[i], r[j]) != Less {
      if i == 0 {
        if j > 1 {
          CompareTransitive(x, ss[0], ss[j - 1]);
        }
      } else {
        assert r[i] == ss[i - 1] && r[j] == ss[j - 1];
      }
    }
  }

  lemma InsertBehind(y: Sentence, ss: seq<Sentence>, x: Sentence, rest: seq<Sentence>)
    requires Descending([y] + ss) && Compare(y, x) != Less
    requires multiset(rest) == multiset(ss) + multiset{x} && Descending(rest)
    ensures Descending([y] + rest)
  {
    var r := [y] + rest;
    forall i, j | 0 <= i < j < |r| ensures Compare(r[i], r[j]) != Less {
      if i > 0 {
        assert r[i] == rest[i - 1] && r[j] == rest[j - 1];
      } else {
        var z := rest[j - 1];
        assert r[0] == y && r[j] == z;
        assert z in multiset(rest);
        if z != x {
          assert z in multiset(ss);
          assert z in ss;
          var k :| 0 <= k < |ss| && ss[k] == z;
          assert ([y] + ss)[0] == y && ([y] + ss)[k + 1] == z;
        }
      }
    }
  }

  /** The stable descending sort of the collected sentences. */
  function SortByReadability(ss: seq<Sentence>): (r: seq<Sentence>)
    ensures Descending(r) && multiset(r) == multiset(ss)
  {
    if ss == [] then []
    else
      assert ss == [ss[0]] + ss[1..];
      Insert(ss[0], SortByReadability(ss[1..]))
  }

  /** The sentences of `ss` that compare Equal with `y`, in order. */
  function EqualTo(ss: seq<Sentence>, y: Sentence): seq<Sentence>
  {
    if ss == [] then []
    else (if Compare(ss[0], y) == Equal then [ss[0]] else []) + EqualTo(ss[1..], y)
  }

  /** Two sentences equal to a third are equal to each other. */
  lemma CompareEqualTransitive(x: Sentence, z: Sentence, y: Sentence)
    requires Compare(x, y) == Equal && Compare(z, y) == Equal
    ensures Compare(x, z) == Equal
  {
    CompareAntisymmetric(z, y);
    CompareAntisymmetric(x, y);
    CompareTransitive(x, y, z);
    CompareTransitive(z, y, x);
    CompareAntisymmetric(x, z);
  }

  lemma DescendingTail(ss: seq<Sentence>)
    requires Descending(ss) && ss != []
    ensures Descending(ss[1..])
  {
    forall i, j | 0 <= i < j < |ss[1..]| ensures Compare(ss[1..][i], ss[1..][j]) != Less {
      assert ss[1..][i] == ss[i + 1] && ss[1..][j] == ss[j + 1];
    }
  }

  function EqualHead(a: Sentence, y: Sentence): seq<Sentence> {
    if Compare(a, y) == Equal then [a] else []
  }

  lemma EqualToCons(a: Sentence, rest: seq<Sentence>, y: Sentence)
    ensures EqualTo([a] + rest, y) == EqualHead(a, y) + EqualTo(rest, y)
  {
    assert ([a] + rest)[0] == a && ([a] + rest)[1..] == rest;
  }

  /** Inserting puts `x` ahead of the sentences equal to it. */
  lemma {:induction false} InsertEqualTo(x: Sentence, ss: seq<Sentence>, y: Sentence)
    requires Descending(ss)
    ensures EqualTo(Insert(x, ss), y) == EqualHead(x, y) + EqualTo(ss, y)
  {
    if ss == [] {
      EqualToCons(x, [], y);
    } else if Compare(x, ss[0]) != Less {
      EqualToCons(x, ss, y);
    } else {
      DescendingTail(ss);
      var rest := Insert(x, ss[1..]);
      assert Insert(x, ss) == [ss[0]] + rest;
      InsertEqualTo(x, ss[1..], y);
      EqualToCons(ss[0], rest, y);
      EqualToCons(ss[0], ss[1..], y);
      assert ss == [ss[0]] + ss[1..];
      if Compare(x, y) == Equal && Compare(ss[0], y) == Equal {
        CompareEqualTransitive(x, ss[0], y);
      }
      assert EqualHead(x, y) == [] || EqualHead(ss[0], y) == [];
    }
  }

  /** The sort is stable: sentences that compare Equal keep their input order. */
  lemma {:induction false} SortStable(ss: seq<Sentence>, y: Sentence)
    ensures EqualTo(SortByReadability(ss), y) == EqualTo(ss, y)
  {
    if ss != [] {
      SortStable(ss[1..], y);
      InsertEqualTo(ss[0], SortByReadability(ss[1..]), y);
    }
  }

  /** The `count` easiest sentences, easiest first. */
  function Best(ss: seq<Sentence>, count: nat): (r: seq<Sentence>)
    ensures |r| == if count < |ss| then count else |ss|
    ensures Descending(r) && multiset(r) <= multiset(ss)
    ensures forall x, y | x in r && y in multiset(ss) - multiset(r) :: Compare(x, y) != Less
  {
    var sorted := SortByReadability(ss);
    var n := if count < |ss| then count else |ss|;
    assert sorted == sorted[..n] + sorted[n..];
    assert |multiset(sorted)| == |ss|;
    PrefixBeatsRest(sorted, n);
    sorted[..n]
  }

  /** In a descending list no sentence of a prefix is below one left out. */
  lemma PrefixBeatsRest(sorted: seq<Sentence>, n: nat)
    requires Descending(sorted) && n <= |sorted|
    ensures forall x, y | x in sorted[..n] && y in multiset(sorted) - multiset(sorted[..n]) :: Compare(x, y) != Less
  {
    assert sorted == sorted[..n] + sorted[n..];
    assert multiset(sorted) - multiset(sorted[..n]) == multiset(sorted[n..]);
    forall x, y | x in sorted[..n] && y in multiset(sorted[n..]) ensures Compare(x, y) != Less {
      var i :| 0 <= i < n && sorted[i] == x;
      var j :| n <= j < |sorted| && sorted[j] == y;
    }
  }

  // ---------------------------------------------------------------------
  // The sentence window of compute_document_stats

  predicate AnyTarget(ws: seq<SentenceWord>) {
    exists i | 0 <= i < |ws| :: ws[i].isTarget
  }

  /** The sentence emitted while taking in word `j`, if any. Before the
      window is full nothing is emitted; when it first becomes full it is
      emitted if one of its first `lead` words is a target; once full, the
      oldest word drops out and the window is emitted if its word at index
      `max / 2` is a target. The source checks the first `max / 2` words. */
  function StepEmit(ws: seq<SentenceWord>, j: nat, maxW: nat, lead: nat): seq<Sentence>
    requires j < |ws| && 1 <= maxW && lead <= maxW
  {
    if j + 1 > maxW then
      if ws[j + 1 - maxW + maxW / 2].isTarget then [Sentence(ws[j + 1 - maxW..j + 1])] else []
    else if j + 1 == maxW then
      if AnyTarget(ws[..lead]) then [Sentence(ws[..j + 1])] else []
    else []
  }

  /** The sentences emitted while taking in the first `k` words. */
  function Steps(ws: seq<SentenceWord>, k: nat, maxW: nat, lead: nat): seq<Sentence>
    requires k <= |ws| && 1 <= maxW && lead <= maxW
  {
    if k == 0 then [] else Steps(ws, k - 1, maxW, lead) + StepEmit(ws, k - 1, maxW, lead)
  }

  /** The sentence emitted at the end of the text sentence: a window that never
      filled is emitted when it has at least `min` words and a target; a
      full one when a target lies at index `max / 2` or later. */
  function EndEmit(ws: seq<SentenceWord>, minW: nat, maxW: nat): seq<Sentence>
    requires 1 <= maxW
  {
    if |ws| < maxW then
      if |ws| >= minW && AnyTarget(ws) then [Sentence(ws)] else []
    else if AnyTarget(ws[|ws| - maxW + maxW / 2..]) then [Sentence(ws[|ws| - maxW..])]
    else []
  }

  function SentenceWindows(ws: seq<SentenceWord>, minW: nat, maxW: nat, lead: nat): seq<Sentence>
    requires 1 <= maxW && lead <= maxW
  {
    Steps(ws, |ws|, maxW, lead) + EndEmit(ws, minW, maxW)
  }

  /** The windows as the source cuts them: the first full window is checked
      for a target among its first `max / 2` words. */
  function WindowsAsWritten(ws: seq<SentenceWord>, minW: nat, maxW: nat): seq<Sentence>
    requires 1 <= maxW
  {
    SentenceWindows(ws, minW, maxW, maxW / 2)
  }

  /** The windows with the first full window checked up to and including its
      word at index `max / 2`, which the later windows no longer check. */
  function Windows(ws: seq<SentenceWord>, minW: nat, maxW: nat): seq<Sentence>
    requires 1 <= maxW
  {
    SentenceWindows(ws, minW, maxW, maxW / 2 + 1)
  }

  /** The first word of the window after taking in `k` words. */
  function WindowStart(k: nat, maxW: nat): nat {
    if k <= maxW then 0 else k - maxW
  }

  /** Once the window is full, taking in word `k` drops its oldest word and
      checks the new window at index `max / 2`. */
  lemma WindowSlides(ws: seq<SentenceWord>, k: nat, maxW: nat, lead: nat)
    requires maxW <= k < |ws| && 1 <= maxW && lead <= maxW
    ensures var w := ws[WindowStart(k, maxW)..k + 1];
      |w| == maxW + 1 && w[1..] == ws[WindowStart(k + 1, maxW)..k + 1]
      && StepEmit(ws, k, maxW, lead) == if w[1..][maxW / 2].isTarget then [Sentence(w[1..])] else []
  {
    var w := ws[WindowStart(k, maxW)..k + 1];
    assert w[1..] == ws[k + 1 - maxW..k + 1];
  }

  /** Before the window is full, taking in word `k` grows it, and it is
      checked over its first `lead` words when it becomes full. */
  lemma WindowFills(ws: seq<SentenceWord>, k: nat, maxW: nat, lead: nat)
    requires k < maxW && k < |ws| && lead <= maxW
    ensures var w := ws[WindowStart(k, maxW)..k + 1];
      |w| <= maxW && w == ws[WindowStart(k + 1, maxW)..k + 1]
      && StepEmit(ws, k, maxW, lead)
         == if |w| == maxW && AnyTarget(w[..lead]) then [Sentence(w)] else []
  {
    var w := ws[WindowStart(k, maxW)..k + 1];
    assert w == ws[..k + 1];
    if |w| == maxW {
      assert w[..lead] == ws[..lead];
    }
  }

  /** Taking in word `k` when the window holds the words from
      `WindowStart(k, max)` up to `k`: what the window becomes and what is
      emitted. */
  lemma WindowStep(ws: seq<SentenceWord>, k: nat, maxW: nat, lead: nat, context: seq<SentenceWord>)
    requires k < |ws| && 1 <= maxW && lead <= maxW
    requires context == ws[WindowStart(k, maxW)..k] && |context| <= maxW
    ensures var pushed := context + [ws[k]];
      if |pushed| > maxW then
        pushed[1..] == ws[WindowStart(k + 1, maxW)..k + 1]
        && StepEmit(ws, k, maxW, lead)
           == if pushed[1..][maxW / 2].isTarget then [Sentence(pushed[1..])] else []
      else
        pushed == ws[WindowStart(k + 1, maxW)..k + 1]
        && StepEmit(ws, k, maxW, lead)
           == if |pushed| == maxW && AnyTarget(pushed[..lead]) then [Sentence(pushed)] else []
  {
    var pushed := context + [ws[k]];
    assert pushed == ws[WindowStart(k, maxW)..k + 1];
    if k >= maxW {
      WindowSlides(ws, k, maxW, lead);
    } else {
      WindowFills(ws, k, maxW, lead);
    }
  }

  /** The end check on the final window. */
  lemma WindowEnd(ws: seq<SentenceWord>, minW: nat, maxW: nat, context: seq<SentenceWord>)
    requires 1 <= maxW && context == ws[WindowStart(|ws|, maxW)..] && |context| <= maxW
    ensures EndEmit(ws, minW, maxW)
      == if |context| < maxW then
           (if |context| >= minW && AnyTarget(context) then [Sentence(context)] else [])
         else if AnyTarget(context[maxW / 2..]) then [Sentence(context)] else []
  {
    if |ws| >= maxW {
      assert context[maxW / 2..] == ws[|ws| - maxW + maxW / 2..];
    } else {
      assert context == ws;
    }
  }

  /** One turn of the window loop: push word `k`, drop the oldest word when
      more than `max` are held, and check the window. */
  method TakeWord(ws: seq<SentenceWord>, k: nat, maxW: nat, lead: nat, context: seq<SentenceWord>)
    returns (context': seq<SentenceWord>, emitted: seq<Sentence>)
    requires k < |ws| && 1 <= maxW && lead <= maxW
    requires context == ws[WindowStart(k, maxW)..k] && |context| <= maxW
    ensures context' == ws[WindowStart(k + 1, maxW)..k + 1] && |context'| <= maxW
    ensures emitted == StepEmit(ws, k, maxW, lead)
  {
    WindowStep(ws, k, maxW, lead, context);
    emitted := [];
    context' := context + [ws[k]];
    if |context'| > maxW {
      context' := context'[1..];
      var mid := maxW / 2;
      if context'[mid].isTarget {
        emitted := [Sentence(context')];
      }
    } else if |context'| == maxW {
      if AnyTarget(context'[..lead]) {
        emitted := [Sentence(context')];
      }
    }
  }

  /** The window loop of `compute_document_stats` over the words of one
      text sentence: pushes each word, drops the oldest once more than `max`
      are held, and emits windows as `SentenceWindows` says. It needs
      `max >= 1`: the source reads index `max / 2` of the window right after
      dropping a word. */
  method CollectSentences(ws: seq<SentenceWord>, minW: nat, maxW: nat, lead: nat)
    returns (sentences: seq<Sentence>)
    requires 1 <= maxW && lead <= maxW
    ensures sentences == SentenceWindows(ws, minW, maxW, lead)
  {
    sentences := [];
    var context: seq<SentenceWord> := [];
    for k := 0 to |ws|
      invariant context == ws[WindowStart(k, maxW)..k] && |context| <= maxW
      invariant sentences == Steps(ws, k, maxW, lead)
    {
      var emitted;
      context, emitted := TakeWord(ws, k, maxW, lead, context);
      sentences := sentences + emitted;
    }
    WindowEnd(ws, minW, maxW, context);
    ghost var before := sentences;
    if |context| < maxW {
      if |context| >= minW && AnyTarget(context) {
        sentences := sentences + [Sentence(context)];
      }
    } else {
      var mid := maxW / 2;
      if AnyTarget(context[mid..]) {
        sentences := sentences + [Sentence(context)];
      }
    }
    assert sentences == before + EndEmit(ws, minW, maxW);
  }

  /** `s` is the run of words of `ws` starting at `i`. */
  predicate Window(ws: seq<SentenceWord>, s: Sentence, i: nat) {
    i + |s.words| <= |ws| && s.words == ws[i..i + |s.words|]
  }

  /** Word `p` of `ws` lies in one of the emitted sentences. */
  ghost predicate Covered(ws: seq<SentenceWord>, out: seq<Sentence>, p: nat) {
    exists j, i: nat | 0 <= j < |out| && Window(ws, out[j], i) :: i <= p < i + |out[j].words|
  }

  /** What every emitted sentence is: a run of at most `max` words of the
      text sentence holding a target; one shorter than `max` is the whole
      text sentence and has at least `min` words. */
  ghost predicate Emitted(ws: seq<SentenceWord>, minW: nat, maxW: nat, s: Sentence) {
    AnyTarget(s.words) && |s.words| <= maxW && (exists i :: Window(ws, s, i))
    && (|s.words| < maxW ==> s.words == ws && |ws| >= minW)
  }

  /** The sentence emitted while taking in word `j` is one. */
  lemma StepEmitEmitted(ws: seq<SentenceWord>, minW: nat, maxW: nat, lead: nat, j: nat)
    requires j < |ws| && 1 <= maxW && lead <= maxW
    ensures forall s | s in StepEmit(ws, j, maxW, lead) :: Emitted(ws, minW, maxW, s)
  {
    if j + 1 > maxW {
      var i := j + 1 - maxW;
      if ws[i + maxW / 2].isTarget {
        var s := Sentence(ws[i..j + 1]);
        assert s.words[maxW / 2].isTarget;
        assert Window(ws, s, i);
        assert StepEmit(ws, j, maxW, lead) == [s];
      }
    } else if j + 1 == maxW && AnyTarget(ws[..lead]) {
      var s := Sentence(ws[..j + 1]);
      var t :| 0 <= t < lead && ws[..lead][t].isTarget;
      assert s.words[t].isTarget;
      assert Window(ws, s, 0);
      assert StepEmit(ws, j, maxW, lead) == [s];
    }
  }

  lemma {:induction false} StepsEmitted(ws: seq<SentenceWord>, minW: nat, maxW: nat, lead: nat, k: nat)
    requires k <= |ws| && 1 <= maxW && lead <= maxW
    ensures forall s | s in Steps(ws, k, maxW, lead) :: Emitted(ws, minW, maxW, s)
  {
    if k > 0 {
      StepsEmitted(ws, minW, maxW, lead, k - 1);
      StepEmitEmitted(ws, minW, maxW, lead, k - 1);
      var prev, emit := Steps(ws, k - 1, maxW, lead), StepEmit(ws, k - 1, maxW, lead);
      assert Steps(ws, k, maxW, lead) == prev + emit;
      EmittedConcat(ws, minW, maxW, prev, emit);
    }
  }

  lemma EmittedConcat(ws: seq<SentenceWord>, minW: nat, maxW: nat, a: seq<Sentence>, b: seq<Sentence>)
    requires forall s | s in a :: Emitted(ws, minW, maxW, s)
    requires forall s | s in b :: Emitted(ws, minW, maxW, s)
    ensures forall s | s in a + b :: Emitted(ws, minW, maxW, s)
  {
    forall s | s in a + b ensures Emitted(ws, minW, maxW, s) {
      if s in b {} else { assert s in a; }
    }
  }

  /** The sentence emitted at the end is one. */
  lemma EndEmitEmitted(ws: seq<SentenceWord>, minW: nat, maxW: nat)
    requires 1 <= maxW
    ensures forall s | s in EndEmit(ws, minW, maxW) :: Emitted(ws, minW, maxW, s)
  {
    if |ws| < maxW {
      assert Window(ws, Sentence(ws), 0);
    } else {
      var i := |ws| - maxW;
      var s := Sentence(ws[i..]);
      if AnyTarget(ws[i + maxW / 2..]) {
        var t :| 0 <= t < |ws[i + maxW / 2..]| && ws[i + maxW / 2..][t].isTarget;
        assert s.words[maxW / 2 + t].isTarget;
        assert Window(ws, s, i);
        assert EndEmit(ws, minW, maxW) == [s];
      }
    }
  }

  /** Every sentence the window loop emits holds a target word and at most
      `max` words, and a short one is a whole text sentence of at least `min`
      words, whichever leading check is used. */
  lemma WindowsEmitted(ws: seq<SentenceWord>, minW: nat, maxW: nat, lead: nat)
    requires 1 <= maxW && lead <= maxW
    ensures forall s | s in SentenceWindows(ws, minW, maxW, lead) :: Emitted(ws, minW, maxW, s)
  {
    StepsEmitted(ws, minW, maxW, lead, |ws|);
    EndEmitEmitted(ws, minW, maxW);
    EmittedConcat(ws, minW, maxW, Steps(ws, |ws|, maxW, lead), EndEmit(ws, minW, maxW));
  }

  lemma CoveredPush(ws: seq<SentenceWord>, out: seq<Sentence>, more: seq<Sentence>, p: nat)
    requires Covered(ws, out, p)
    ensures Covered(ws, out + more, p)
  {
    var j, i: nat :| 0 <= j < |out| && Window(ws, out[j], i) && i <= p < i + |out[j].words|;
    assert (out + more)[j] == out[j];
  }

  /** The words whose windows have been decided after taking in `k` words:
      none before the window fills, then those up to the middle of the
      current window. */
  function Settled(k: nat, maxW: nat): nat {
    if k < maxW then 0 else k - maxW + maxW / 2 + 1
  }

  lemma {:induction false} StepsCover(ws: seq<SentenceWord>, maxW: nat, k: nat)
    requires k <= |ws| && 1 <= maxW
    ensures forall p: nat | p < Settled(k, maxW) && p < |ws| && ws[p].isTarget ::
      Covered(ws, Steps(ws, k, maxW, maxW / 2 + 1), p)
  {
    var lead := maxW / 2 + 1;
    if k > 0 {
      StepsCover(ws, maxW, k - 1);
      forall p: nat | p < Settled(k, maxW) && p < |ws| && ws[p].isTarget
        ensures Covered(ws, Steps(ws, k - 1, maxW, lead) + StepEmit(ws, k - 1, maxW, lead), p)
      {
        StepCovers(ws, maxW, k, p);
      }
    }
  }

  /** A target word settled by the step that takes in word `k - 1` lies in
      a sentence emitted so far. */
  lemma StepCovers(ws: seq<SentenceWord>, maxW: nat, k: nat, p: nat)
    requires 0 < k <= |ws| && 1 <= maxW
    requires p < Settled(k, maxW) && p < |ws| && ws[p].isTarget
    requires p < Settled(k - 1, maxW) ==> Covered(ws, Steps(ws, k - 1, maxW, maxW / 2 + 1), p)
    ensures Covered(ws, Steps(ws, k - 1, maxW, maxW / 2 + 1) + StepEmit(ws, k - 1, maxW, maxW / 2 + 1), p)
  {
    var lead := maxW / 2 + 1;
    var prev := Steps(ws, k - 1, maxW, lead);
    var emit := StepEmit(ws, k - 1, maxW, lead);
    if p < Settled(k - 1, maxW) {
      CoveredPush(ws, prev, emit, p);
    } else if k == maxW {
      assert ws[..lead][p].isTarget;
      assert Window(ws, Sentence(ws[..k]), 0);
      assert (prev + emit)[|prev|] == Sentence(ws[..k]);
    } else {
      var i := k - maxW;
      assert p == i + maxW / 2;
      assert Window(ws, Sentence(ws[i..k]), i);
      assert (prev + emit)[|prev|] == Sentence(ws[i..k]);
    }
  }

  /** With the first full window checked through its middle word, every
      target word of a text sentence that has at least `min` words, or at
      least `max`, lies in an emitted sentence. */
  lemma WindowsCover(ws: seq<SentenceWord>, minW: nat, maxW: nat)
    requires 1 <= maxW
    ensures |ws| >= minW || |ws| >= maxW ==>
      forall p: nat | p < |ws| && ws[p].isTarget :: Covered(ws, Windows(ws, minW, maxW), p)
  {
    StepsCover(ws, maxW, |ws|);
    forall p: nat | p < |ws| && ws[p].isTarget && (|ws| >= minW || |ws| >= maxW)
      ensures Covered(ws, Steps(ws, |ws|, maxW, maxW / 2 + 1) + EndEmit(ws, minW, maxW), p)
    {
      EndCovers(ws, minW, maxW, p);
    }
  }

  /** A target word the window loop left unsettled lies in the sentence the
      final check emits. */
  lemma EndCovers(ws: seq<SentenceWord>, minW: nat, maxW: nat, p: nat)
    requires 1 <= maxW && p < |ws| && ws[p].isTarget && (|ws| >= minW || |ws| >= maxW)
    requires p < Settled(|ws|, maxW) ==> Covered(ws, Steps(ws, |ws|, maxW, maxW / 2 + 1), p)
    ensures Covered(ws, Steps(ws, |ws|, maxW, maxW / 2 + 1) + EndEmit(ws, minW, maxW), p)
  {
    var steps := Steps(ws, |ws|, maxW, maxW / 2 + 1);
    var end := EndEmit(ws, minW, maxW);
    if p < Settled(|ws|, maxW) {
      CoveredPush(ws, steps, end, p);
    } else if |ws| < maxW {
      assert Window(ws, Sentence(ws), 0);
      assert (steps + end)[|steps|] == Sentence(ws);
    } else {
      var i := |ws| - maxW;
      assert ws[i + maxW / 2..][p - i - maxW / 2].isTarget;
      assert Window(ws, Sentence(ws[i..]), i);
      assert (steps + end)[|steps|] == Sentence(ws[i..]);
    }
  }

  /** As written, the target word at index `max / 2` of a text sentence
      longer than `max` is in no emitted sentence: with `max = 3` and words
      `a T b c`, the first full window checks only `a`, the next window
      checks `b`, and the final check looks at `b c`. */
  lemma MissedTarget()
    ensures var ws := [SentenceWord("a", Unknown, false), SentenceWord("T", Unknown, true),
                       SentenceWord("b", Unknown, false), SentenceWord("c", Unknown, false)];
      ws[1].isTarget && WindowsAsWritten(ws, 1, 3) == [] && |Windows(ws, 1, 3)| == 1
  {
    var ws := [SentenceWord("a", Unknown, false), SentenceWord("T", Unknown, true),
               SentenceWord("b", Unknown, false), SentenceWord("c", Unknown, false)];
    assert !AnyTarget(ws[..1]);
    assert AnyTarget(ws[..2]) by { assert ws[..2][1].isTarget; }
    assert !AnyTarget(ws[2..]);
    assert Steps(ws, 2, 3, 1) == [] && Steps(ws, 2, 3, 2) == [];
    assert Steps(ws, 4, 3, 1) == [];
    assert Steps(ws, 4, 3, 2) == [Sentence(ws[..3])];
  }
}
