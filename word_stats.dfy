/** The `word_stats` tool (src/bin/word_stats.rs): the `--max-status`
    argument, the count of root words reached from the analysed words, the
    merge of per-book counts and the ranking of the result. */
module WordStats {
  import opened Common
  import opened Dict

  // ---------------------------------------------------------------------
  // --max-status

  /** `--max-status`: 0..5 name Unknown..Level5, absence means WellKnown. */
  function MaxStatusArg(arg: Option<nat>): (r: Result<WordStatus>)
  {
    if arg.None? then Ok(WellKnown)
    else if arg.value == 0 then Ok(Unknown)
    else if arg.value == 1 then Ok(New)
    else if arg.value == 2 then Ok(Level2)
    else if arg.value == 3 then Ok(Level3)
    else if arg.value == 4 then Ok(Level4)
    else if arg.value == 5 then Ok(Level5)
    else Err(AppError("--max-status must be in range 0..5"))
  }

  /** A number is accepted exactly when it is at most 5, and then it is the
      rank of the status it names; without the argument every learning
      status and WellKnown pass the bound. */
  lemma MaxStatusSpec(arg: Option<nat>)
    ensures MaxStatusArg(arg).Ok? <==> arg.None? || arg.value <= 5
    ensures arg.Some? && arg.value <= 5 ==> Rank(MaxStatusArg(arg).value) == arg.value
    ensures arg.None? ==> forall s :: Le(s, MaxStatusArg(arg).value)
  {
  }

  // ---------------------------------------------------------------------
  // Counts

  type Counts = map<string, nat>

  function Get(m: Counts, k: string): nat {
    if k in m then m[k] else 0
  }

  /** The counts of `a` and `b` added key by key. */
  function Merged(a: Counts, b: Counts): (r: Counts)
    ensures r.Keys == a.Keys + b.Keys
    ensures forall k :: Get(r, k) == Get(a, k) + Get(b, k)
  {
    map k | k in a.Keys + b.Keys :: Get(a, k) + Get(b, k)
  }

  /** `merge_roots`: adds every count of `new` to the accumulated one. */
  method MergeRoots(acc: Counts, added: Counts) returns (r: Counts)
    ensures r.Keys == acc.Keys + added.Keys
    ensures forall k :: Get(r, k) == Get(acc, k) + Get(added, k)
  {
    r := acc;
    var todo := added.Keys;
    while todo != {}
      invariant todo <= added.Keys
      invariant r.Keys == acc.Keys + (added.Keys - todo)
      invariant forall k :: Get(r, k) == Get(acc, k) + (if k in todo then 0 else Get(added, k))
      decreases todo
    {
      var w :| w in todo;
      r := r[w := Get(r, w) + added[w]];
      todo := todo - {w};
    }
  }

  /** Books finish in any order; the merged counts do not depend on it. */
  lemma MergeOrderFree(a: Counts, b: Counts, c: Counts)
    ensures Merged(Merged(a, b), c) == Merged(Merged(a, c), b)
    ensures Merged(a, map[]) == a
  {
    var x := Merged(Merged(a, b), c);
    var y := Merged(Merged(a, c), b);
    assert forall k | k in x :: x[k] == Get(x, k) == Get(y, k) == y[k];
    var z := Merged(a, map[]);
    assert forall k | k in z :: z[k] == Get(z, k) == Get(a, k) == a[k];
  }

  // ---------------------------------------------------------------------
  // Root counting

  /** A stack entry: a word and how many more parent links may be followed
      below it. The source follows parent links without a bound. */
  datatype Item = Item(word: Word, depth: nat)

  function Items(ws: seq<Word>, depth: nat): (r: seq<Item>)
    ensures |r| == |ws| && forall k | 0 <= k < |ws| :: r[k] == Item(ws[k], depth)
  {
    seq(|ws|, k requires 0 <= k < |ws| => Item(ws[k], depth))
  }

  /** Counts as a multiset of root texts; an error absorbs everything after it. */
  type Tally = Result<multiset<string>>

  function Add(a: Tally, b: Tally): Tally {
    if a.Err? then a else if b.Err? then b else Ok(a.value + b.value)
  }

  lemma AddAssoc(a: Tally, b: Tally, c: Tally)
    ensures Add(Add(a, b), c) == Add(a, Add(b, c))
  {
    if a.Ok? && b.Ok? && c.Ok? {
      assert a.value + b.value + c.value == a.value + (b.value + c.value);
    }
  }

  /** The words stored under each parent text, parent by parent, as the
      source pushes them. */
  function ParentWords(store: Store, parents: seq<string>): seq<Word> {
    if parents == [] then []
    else ParentWords(store, parents[..|parents| - 1]) + FindWords(store, parents[|parents| - 1])
  }

  /** A word without parents counts once when its optimistic status is not
      Ignored and at most `maxStatus`. */
  function Leaf(store: Store, w: Word, maxStatus: WordStatus, fuel: nat): Tally {
    var range :- ResolveStati(store, FindWords(store, w.text), StoredStatus, fuel);
    if range.1 == Ignored then Ok(multiset{})
    else if Le(range.1, maxStatus) then Ok(multiset{w.text})
    else Ok(multiset{})
  }

  /** The roots reached from `w` within `depth` parent links. */
  function Contribution(store: Store, maxStatus: WordStatus, fuel: nat, w: Word, depth: nat): Tally
    decreases depth, 0
  {
    if w.parents == [] then Leaf(store, w, maxStatus, fuel)
    else if depth == 0 then Err(Exhausted)
    else TotalAt(store, maxStatus, fuel, ParentWords(store, w.parents), depth - 1)
  }

  /** The roots reached from each of `ws`, added up. */
  function TotalAt(store: Store, maxStatus: WordStatus, fuel: nat, ws: seq<Word>, depth: nat): Tally
    decreases depth, 1, |ws|
  {
    if ws == [] then Ok(multiset{})
    else Add(TotalAt(store, maxStatus, fuel, ws[..|ws| - 1], depth),
             Contribution(store, maxStatus, fuel, ws[|ws| - 1], depth))
  }

  /** The roots still to be reached from a stack. */
  function StackTally(store: Store, maxStatus: WordStatus, fuel: nat, q: seq<Item>): Tally {
    if q == [] then Ok(multiset{})
    else Add(StackTally(store, maxStatus, fuel, q[..|q| - 1]),
             Contribution(store, maxStatus, fuel, q[|q| - 1].word, q[|q| - 1].depth))
  }

  /** The number of nodes of the unfolding below `w`: what the walk still
      has to pop for it. */
  function Nodes(store: Store, w: Word, depth: nat): nat
    decreases depth, 0
  {
    if w.parents == [] || depth == 0 then 1
    else 1 + NodesAt(store, ParentWords(store, w.parents), depth - 1)
  }

  function NodesAt(store: Store, ws: seq<Word>, depth: nat): nat
    decreases depth, 1, |ws|
  {
    if ws == [] then 0
    else NodesAt(store, ws[..|ws| - 1], depth) + Nodes(store, ws[|ws| - 1], depth)
  }

  function StackNodes(store: Store, q: seq<Item>): nat {
    if q == [] then 0
    else StackNodes(store, q[..|q| - 1]) + Nodes(store, q[|q| - 1].word, q[|q| - 1].depth)
  }

  lemma {:induction false} StackAppend(store: Store, maxStatus: WordStatus, fuel: nat, q: seq<Item>, xs: seq<Item>)
    ensures StackTally(store, maxStatus, fuel, q + xs)
            == Add(StackTally(store, maxStatus, fuel, q), StackTally(store, maxStatus, fuel, xs))
    ensures StackNodes(store, q + xs) == StackNodes(store, q) + StackNodes(store, xs)
    decreases |xs|
  {
    if xs != [] {
      var init := xs[..|xs| - 1];
      var last := xs[|xs| - 1];
      assert (q + xs)[..|q + xs| - 1] == q + init;
      assert (q + xs)[|q + xs| - 1] == last;
      StackAppend(store, maxStatus, fuel, q, init);
      AddAssoc(StackTally(store, maxStatus, fuel, q), StackTally(store, maxStatus, fuel, init),
               Contribution(store, maxStatus, fuel, last.word, last.depth));
    } else {
      assert q + xs == q;
      var t := StackTally(store, maxStatus, fuel, q);
      assert t.Ok? ==> t.value + multiset{} == t.value;
    }
  }

  lemma {:induction false} StackOfItems(store: Store, maxStatus: WordStatus, fuel: nat, ws: seq<Word>, depth: nat)
    ensures StackTally(store, maxStatus, fuel, Items(ws, depth)) == TotalAt(store, maxStatus, fuel, ws, depth)
    ensures StackNodes(store, Items(ws, depth)) == NodesAt(store, ws, depth)
    decreases |ws|
  {
    if ws != [] {
      var init := ws[..|ws| - 1];
      assert Items(ws, depth)[..|ws| - 1] == Items(init, depth);
      StackOfItems(store, maxStatus, fuel, init, depth);
    }
  }

  lemma ItemsAppend(a: seq<Word>, b: seq<Word>, depth: nat)
    ensures Items(a + b, depth) == Items(a, depth) + Items(b, depth)
  {
  }

  /** The facts the walk needs after replacing a popped word by its parents. */
  lemma ExpandStep(store: Store, maxStatus: WordStatus, fuel: nat, rest: seq<Item>, w: Word, depth: nat)
    requires w.parents != [] && depth > 0
    ensures var q := rest + Items(ParentWords(store, w.parents), depth - 1);
      && StackTally(store, maxStatus, fuel, q)
         == Add(StackTally(store, maxStatus, fuel, rest), Contribution(store, maxStatus, fuel, w, depth))
      && StackNodes(store, q) + 1 == StackNodes(store, rest) + Nodes(store, w, depth)
  {
    var pw := ParentWords(store, w.parents);
    StackAppend(store, maxStatus, fuel, rest, Items(pw, depth - 1));
    StackOfItems(store, maxStatus, fuel, pw, depth - 1);
  }

  /** `q.extend(parent_words)` for each parent in turn. */
  method PushParents(store: Store, q: seq<Item>, w: Word, depth: nat) returns (q': seq<Item>)
    ensures q' == q + Items(ParentWords(store, w.parents), depth)
  {
    q' := q;
    for i := 0 to |w.parents|
      invariant q' == q + Items(ParentWords(store, w.parents[..i]), depth)
    {
      assert w.parents[..i + 1][..i] == w.parents[..i];
      ItemsAppend(ParentWords(store, w.parents[..i]), FindWords(store, w.parents[i]), depth);
      q' := q' + Items(FindWords(store, w.parents[i]), depth);
    }
    assert w.parents[..|w.parents|] == w.parents;
  }

  /** The facts the walk keeps: what is counted plus what the stack still
      reaches is what the segment reaches, on top of the earlier counts. */
  ghost predicate Walking(store: Store, maxStatus: WordStatus, fuel: nat, seg: seq<Word>, depth: nat,
                          roots: Counts, acc: Counts, q: seq<Item>)
  {
    var total := TotalAt(store, maxStatus, fuel, seg, depth);
    var left := StackTally(store, maxStatus, fuel, q);
    && (left.Ok? <==> total.Ok?)
    && (left.Ok? ==> forall t :: Get(acc, t) + left.value[t] == Get(roots, t) + total.value[t])
  }

  /** The count after a word without parents: one more for its text when it counts. */
  function Bump(acc: Counts, t: string, counted: bool): (r: Counts)
    ensures forall u :: Get(r, u) == Get(acc, u) + if counted && u == t then 1 else 0
  {
    if counted then acc[t := Get(acc, t) + 1] else acc
  }

  /** Popping a word: a failure of its own ends the walk with a failure of the segment. */
  lemma PopFails(store: Store, maxStatus: WordStatus, fuel: nat, seg: seq<Word>, depth: nat,
                 roots: Counts, acc: Counts, rest: seq<Item>, item: Item)
    requires Walking(store, maxStatus, fuel, seg, depth, roots, acc, rest + [item])
    requires Contribution(store, maxStatus, fuel, item.word, item.depth).Err?
    ensures TotalAt(store, maxStatus, fuel, seg, depth).Err?
  {
    assert (rest + [item])[..|rest|] == rest;
  }

  /** What a word without parents adds, once its status is resolved. */
  lemma LeafValue(store: Store, w: Word, maxStatus: WordStatus, fuel: nat)
    requires ResolveStati(store, FindWords(store, w.text), StoredStatus, fuel).Ok?
    ensures var st := ResolveStati(store, FindWords(store, w.text), StoredStatus, fuel).value.1;
      Leaf(store, w, maxStatus, fuel)
        == Ok(if st != Ignored && Le(st, maxStatus) then multiset{w.text} else multiset{})
  {
  }

  /** Popping a word without parents moves its count from the stack to `acc`. */
  lemma PopLeaf(store: Store, maxStatus: WordStatus, fuel: nat, seg: seq<Word>, depth: nat,
                roots: Counts, acc: Counts, rest: seq<Item>, item: Item, counted: bool)
    requires Walking(store, maxStatus, fuel, seg, depth, roots, acc, rest + [item])
    requires Contribution(store, maxStatus, fuel, item.word, item.depth)
               == Ok(if counted then multiset{item.word.text} else multiset{})
    ensures Walking(store, maxStatus, fuel, seg, depth, roots, Bump(acc, item.word.text, counted), rest)
  {
    assert (rest + [item])[..|rest|] == rest;
    var left := StackTally(store, maxStatus, fuel, rest);
    var m: multiset<string> := if counted then multiset{item.word.text} else multiset{};
    if left.Ok? {
      assert forall t :: (left.value + m)[t] == left.value[t] + m[t];
    }
  }

  lemma PopLeafNodes(store: Store, rest: seq<Item>, item: Item)
    requires item.word.parents == []
    ensures StackNodes(store, rest) < StackNodes(store, rest + [item])
  {
    assert (rest + [item])[..|rest|] == rest;
  }

  /** Replacing a word by its parents' words keeps the walk's facts and
      leaves fewer nodes to visit. */
  lemma PopParents(store: Store, maxStatus: WordStatus, fuel: nat, seg: seq<Word>, depth: nat,
                   roots: Counts, acc: Counts, rest: seq<Item>, item: Item)
    requires Walking(store, maxStatus, fuel, seg, depth, roots, acc, rest + [item])
    requires item.word.parents != [] && item.depth > 0
    ensures var q := rest + Items(ParentWords(store, item.word.parents), item.depth - 1);
      && Walking(store, maxStatus, fuel, seg, depth, roots, acc, q)
      && StackNodes(store, q) < StackNodes(store, rest + [item])
  {
    assert (rest + [item])[..|rest|] == rest;
    ExpandStep(store, maxStatus, fuel, rest, item.word, item.depth);
  }

  /** One turn of the walk: pop a word; count it when it has no parents,
      or push the words of its parents. `stop` carries the error that ends
      the walk. */
  method PopWord(store: Store, seg: seq<Word>, maxStatus: WordStatus, depth: nat, fuel: nat,
                 ghost roots: Counts, acc: Counts, q: seq<Item>)
    returns (stop: Option<Error>, acc': Counts, q': seq<Item>)
    requires q != [] && Walking(store, maxStatus, fuel, seg, depth, roots, acc, q)
    ensures stop.Some? ==> TotalAt(store, maxStatus, fuel, seg, depth).Err?
    ensures stop.None? ==> Walking(store, maxStatus, fuel, seg, depth, roots, acc', q')
                           && StackNodes(store, q') < StackNodes(store, q)
  {
    var item := q[|q| - 1];
    var rest := q[..|q| - 1];
    assert q == rest + [item];
    var w := item.word;
    acc' := acc;
    q' := rest;
    if w.parents == [] {
      var range := ResolveStati(store, FindWords(store, w.text), StoredStatus, fuel);
      if range.Err? {
        PopFails(store, maxStatus, fuel, seg, depth, roots, acc, rest, item);
        return Some(range.error), acc', q';
      }
      var st := range.value.1;
      LeafValue(store, w, maxStatus, fuel);
      PopLeaf(store, maxStatus, fuel, seg, depth, roots, acc, rest, item, st != Ignored && Le(st, maxStatus));
      PopLeafNodes(store, rest, item);
      if st != Ignored && Le(st, maxStatus) {
        acc' := acc[w.text := Get(acc, w.text) + 1];
      }
    } else {
      if item.depth == 0 {
        PopFails(store, maxStatus, fuel, seg, depth, roots, acc, rest, item);
        return Some(Exhausted), acc', q';
      }
      PopParents(store, maxStatus, fuel, seg, depth, roots, acc, rest, item);
      q' := PushParents(store, rest, w, item.depth - 1);
    }
    return None, acc', q';
  }

  /** The stack walk over one segment's words (the inner `while let Some(word)
      = q.pop()` loop), with the parent depth bounded by `depth` and each
      status resolution by `fuel`. */
  method WalkSegment(store: Store, seg: seq<Word>, maxStatus: WordStatus, depth: nat, fuel: nat,
                     roots: Counts) returns (r: Result<Counts>)
    ensures r.Ok? <==> TotalAt(store, maxStatus, fuel, seg, depth).Ok?
    ensures r.Ok? ==> forall t :: Get(r.value, t)
                        == Get(roots, t) + TotalAt(store, maxStatus, fuel, seg, depth).value[t]
  {
    var q := Items(seg, depth);
    var acc: Counts := roots;
    StackOfItems(store, maxStatus, fuel, seg, depth);
    while q != []
      invariant Walking(store, maxStatus, fuel, seg, depth, roots, acc, q)
      decreases StackNodes(store, q)
    {
      var stop;
      stop, acc, q := PopWord(store, seg, maxStatus, depth, fuel, roots, acc, q);
      if stop.Some? {
        return Err(stop.value);
      }
    }
    return Ok(acc);
  }

  /** The roots of all segments, segment by segment. */
  function SegmentsTotal(store: Store, maxStatus: WordStatus, fuel: nat, segs: seq<seq<Word>>, depth: nat): Tally {
    if segs == [] then Ok(multiset{})
    else Add(SegmentsTotal(store, maxStatus, fuel, segs[..|segs| - 1], depth),
             TotalAt(store, maxStatus, fuel, segs[|segs| - 1], depth))
  }

  /** `compute_document_stats`: the root counts of a document's segments. */
  method CountRoots(store: Store, segs: seq<seq<Word>>, maxStatus: WordStatus, depth: nat, fuel: nat)
    returns (r: Result<Counts>)
    ensures r.Ok? <==> SegmentsTotal(store, maxStatus, fuel, segs, depth).Ok?
    ensures r.Ok? ==> forall t :: Get(r.value, t) == SegmentsTotal(store, maxStatus, fuel, segs, depth).value[t]
  {
    var roots: Counts := map[];
    for i := 0 to |segs|
      invariant SegmentsTotal(store, maxStatus, fuel, segs[..i], depth).Ok?
      invariant forall t :: Get(roots, t) == SegmentsTotal(store, maxStatus, fuel, segs[..i], depth).value[t]
    {
      assert segs[..i + 1][..i] == segs[..i];
      var next := WalkSegment(store, segs[i], maxStatus, depth, fuel, roots);
      if next.Err? {
        SegmentsErrorSticks(store, maxStatus, fuel, segs, depth, i + 1);
        return Err(next.error);
      }
      roots := next.value;
    }
    assert segs[..|segs|] == segs;
    return Ok(roots);
  }

  lemma {:induction false} SegmentsErrorSticks(store: Store, maxStatus: WordStatus, fuel: nat,
                                               segs: seq<seq<Word>>, depth: nat, n: nat)
    requires n <= |segs|
    requires SegmentsTotal(store, maxStatus, fuel, segs[..n], depth).Err?
    ensures SegmentsTotal(store, maxStatus, fuel, segs, depth).Err?
    decreases |segs| - n
  {
    if n < |segs| {
      assert segs[..n + 1][..n] == segs[..n];
      SegmentsErrorSticks(store, maxStatus, fuel, segs, depth, n + 1);
    } else {
      assert segs[..n] == segs;
    }
  }

  /** A word without parents counts exactly when its optimistic status is
      neither Ignored nor above the bound; even with the bound WellKnown,
      which ranks above Ignored, an ignored word never counts. */
  lemma LeafSpec(store: Store, w: Word, maxStatus: WordStatus, fuel: nat)
    requires ResolveStati(store, FindWords(store, w.text), StoredStatus, fuel).Ok?
    ensures var st := ResolveStati(store, FindWords(store, w.text), StoredStatus, fuel).value.1;
      && Leaf(store, w, maxStatus, fuel).Ok?
      && (w.text in Leaf(store, w, maxStatus, fuel).value <==> st != Ignored && Le(st, maxStatus))
      && Leaf(store, w, maxStatus, fuel).value <= multiset{w.text}
  {
  }

  // ---------------------------------------------------------------------
  // Ranking

  /** Descending by count, stated on neighbours. */
  predicate ByCountDescending(es: seq<(string, nat)>) {
    forall i | 0 < i < |es| :: es[i - 1].1 >= es[i].1
  }

  lemma {:induction false} DescendingAll(es: seq<(string, nat)>)
    requires ByCountDescending(es)
    ensures forall i, j | 0 <= i < j < |es| :: es[i].1 >= es[j].1
    decreases |es|
  {
    if |es| > 1 {
      DescendingAll(es[1..]);
      forall i, j | 0 <= i < j < |es| ensures es[i].1 >= es[j].1 {
        if i == 0 {
          assert es[1] == es[1..][0] && es[j] == es[1..][j - 1];
        } else {
          assert es[i] == es[1..][i - 1] && es[j] == es[1..][j - 1];
        }
      }
    }
  }

  /** Inserts `e` before the first entry with a count not above its own. */
  function InsertByCount(e: (string, nat), sorted: seq<(string, nat)>): (r: seq<(string, nat)>)
    requires ByCountDescending(sorted)
    ensures |r| == |sorted| + 1 && (r[0] == e || (sorted != [] && r[0] == sorted[0]))
    ensures ByCountDescending(r)
    ensures multiset(r) == multiset(sorted) + multiset{e}
  {
    if sorted == [] || sorted[0].1 <= e.1 then [e] + sorted
    else
      assert sorted == [sorted[0]] + sorted[1..];
      [sorted[0]] + InsertByCount(e, sorted[1..])
  }

  /** `sort_by(|(_, a), (_, b)| b.cmp(a))`. */
  function SortByCount(es: seq<(string, nat)>): (r: seq<(string, nat)>)
    ensures ByCountDescending(r)
    ensures multiset(r) == multiset(es)
  {
    if es == [] then []
    else
      assert es == [es[0]] + es[1..];
      InsertByCount(es[0], SortByCount(es[1..]))
  }

  /** The printed ranking: entries by descending count, cut to `count`. */
  function Ranking(es: seq<(string, nat)>, count: Option<nat>): seq<(string, nat)> {
    var sorted := SortByCount(es);
    if count.Some? && count.value < |sorted| then sorted[..count.value] else sorted
  }

  /** The ranking lists at most `count` entries, all from the input, in
      descending order, and everything when no count is given. */
  lemma RankingSpec(es: seq<(string, nat)>, count: Option<nat>)
    ensures var r := Ranking(es, count);
      && ByCountDescending(r)
      && multiset(r) <= multiset(es)
      && (count.None? ==> multiset(r) == multiset(es))
      && (count.Some? ==> |r| == if count.value < |es| then count.value else |es|)
  {
    var sorted := SortByCount(es);
    var r := Ranking(es, count);
    assert |sorted| == |multiset(sorted)| == |es|;
    assert sorted == r + sorted[|r|..];
    assert multiset(sorted) == multiset(r) + multiset(sorted[|r|..]);
  }

  /** No entry left out of the ranking has a larger count than one kept. */
  lemma RankingKeepsLargest(es: seq<(string, nat)>, count: Option<nat>)
    ensures var r := Ranking(es, count);
      forall e | e in multiset(es) - multiset(r) :: forall k | 0 <= k < |r| :: r[k].1 >= e.1
  {
    var sorted := SortByCount(es);
    DescendingAll(sorted);
    var r := Ranking(es, count);
    assert sorted == r + sorted[|r|..];
    assert multiset(sorted) == multiset(r) + multiset(sorted[|r|..]);
    forall e | e in multiset(es) - multiset(r)
      ensures forall k | 0 <= k < |r| :: r[k].1 >= e.1
    {
      assert e in multiset(sorted[|r|..]);
      var j :| 0 <= j < |sorted[|r|..]| && sorted[|r|..][j] == e;
      assert sorted[|r| + j] == e;
    }
  }
}
