/** The word records of src/dict.rs, the learner-status scale, the two status
    range folds, the recursive status resolution over a word's parents and the
    breadth-first parent closure. The persistent store (SQLite behind a cache in
    the source) is given here as the value it answers `find_words_by_text`
    with: a map from surface text to the words stored under it. */
module Dict {
  import opened Common

  /** Learner status, ordered as Rust's derived `Ord` orders the variants
      (by discriminant): Unknown < New < Level2 < ... < Level5 < Ignored < WellKnown. */
  datatype WordStatus = Unknown | New | Level2 | Level3 | Level4 | Level5 | Ignored | WellKnown

  /** The `#[repr(u8)]` discriminant. */
  function Rank(s: WordStatus): nat
  {
    match s
    case Unknown => 0
    case New => 1
    case Level2 => 2
    case Level3 => 3
    case Level4 => 4
    case Level5 => 5
    case Ignored => 98
    case WellKnown => 99
  }

  predicate Le(a: WordStatus, b: WordStatus) { Rank(a) <= Rank(b) }
  predicate Lt(a: WordStatus, b: WordStatus) { Rank(a) < Rank(b) }

  lemma RankInjective(a: WordStatus, b: WordStatus)
    ensures Rank(a) == Rank(b) <==> a == b
  {
  }

  /** `Ord::min`: the smaller of the two (the first on ties). */
  function Min(a: WordStatus, b: WordStatus): (r: WordStatus)
    ensures Le(r, a) && Le(r, b) && (r == a || r == b)
  {
    if Le(a, b) then a else b
  }

  /** `Ord::max`: the larger of the two (the second on ties). */
  function Max(a: WordStatus, b: WordStatus): (r: WordStatus)
    ensures Le(a, r) && Le(b, r) && (r == a || r == b)
  {
    if Le(a, b) then b else a
  }

  /** A (pessimistic, optimistic) status range. */
  type StatusRange = (WordStatus, WordStatus)

  /** A dictionary entry. `status == None` means "inherit from the parents";
      `parents` name parent words by surface text. */
  datatype Word = Word(
    id: Option<int>,
    text: string,
    status: Option<WordStatus>,
    pronunciation: Option<string>,
    translation: string,
    tags: seq<string>,
    parents: seq<string>,
    imageFile: Option<string>,
    resolvedStatus: Option<StatusRange>,
    inherit: bool)

  /** `EMPTY_WORD`, the base of every struct-update expression on words. */
  const EmptyWord: Word := Word(None, [], None, None, [], [], [], None, None, false)

  // ---------------------------------------------------------------------
  // Folds over status ranges

  predicate HalfIgnored(x: StatusRange) {
    (x.0 == Ignored || x.1 == Ignored) && x != (Ignored, Ignored)
  }

  const InvalidRange := AppError("invalid word status ranges")

  /** `fold_status_range_possibilities`: combines two alternative senses. */
  function FoldPossibilities(x: StatusRange, y: StatusRange): Result<StatusRange>
  {
    if x == (Unknown, Unknown) then Ok(y)
    else if y == (Unknown, Unknown) then Ok(x)
    else if x == (Ignored, Ignored) then Ok(y)
    else if y == (Ignored, Ignored) then Ok(x)
    else if x.0 == Ignored || x.1 == Ignored then Err(InvalidRange)
    else if y.0 == Ignored || y.1 == Ignored then Err(InvalidRange)
    else Ok((Min(x.0, y.0), Max(x.1, y.1)))
  }

  /** `fold_status_range_parents`: combines a running range with a parent's. */
  function FoldParents(x: StatusRange, y: StatusRange): Result<StatusRange>
  {
    if x == (Ignored, Ignored) || y == (Ignored, Ignored) then Ok((Ignored, Ignored))
    else if x.0 == Ignored || x.1 == Ignored then Err(InvalidRange)
    else if y.0 == Ignored || y.1 == Ignored then Err(InvalidRange)
    else Ok((Min(x.0, y.0), Min(x.1, y.1)))
  }

  /** Alternative senses: (Unknown, Unknown) is a neutral placeholder on either
      side, (Ignored, Ignored) is skipped, a half-Ignored range is an error, and
      otherwise the pessimistic bound is the worse and the optimistic the better. */
  lemma FoldPossibilitiesCases(x: StatusRange, y: StatusRange)
    ensures x == (Unknown, Unknown) ==> FoldPossibilities(x, y) == Ok(y)
    ensures y == (Unknown, Unknown) ==> FoldPossibilities(x, y) == Ok(x)
    ensures x == (Ignored, Ignored) && y != (Unknown, Unknown) ==> FoldPossibilities(x, y) == Ok(y)
    ensures y == (Ignored, Ignored) && x != (Unknown, Unknown) ==> FoldPossibilities(x, y) == Ok(x)
    ensures (HalfIgnored(x) && y != (Unknown, Unknown) && y != (Ignored, Ignored))
            || (HalfIgnored(y) && x != (Unknown, Unknown) && x != (Ignored, Ignored))
            ==> FoldPossibilities(x, y).Err?
    ensures FoldPossibilities(x, y).Err? ==> HalfIgnored(x) || HalfIgnored(y)
  {
  }

  /** Folding senses does not depend on their order, except for which of two
      invalid ranges the error names. */
  lemma FoldPossibilitiesCommutes(x: StatusRange, y: StatusRange)
    ensures FoldPossibilities(x, y).Ok? <==> FoldPossibilities(y, x).Ok?
    ensures FoldPossibilities(x, y).Ok? ==> FoldPossibilities(x, y) == FoldPossibilities(y, x)
  {
  }

  /** Folding a parent into a range never raises either bound. */
  lemma FoldParentsLowers(x: StatusRange, y: StatusRange)
    requires FoldParents(x, y).Ok?
    ensures var r := FoldParents(x, y).value;
            r == (Ignored, Ignored) || (Le(r.0, x.0) && Le(r.1, x.1) && Le(r.0, y.0) && Le(r.1, y.1))
    ensures FoldParents(x, y).value == (Ignored, Ignored) <==>
              x == (Ignored, Ignored) || y == (Ignored, Ignored)
  {
  }

  lemma FoldParentsCommutes(x: StatusRange, y: StatusRange)
    ensures FoldParents(x, y).Ok? <==> FoldParents(y, x).Ok?
    ensures FoldParents(x, y).Ok? ==> FoldParents(x, y) == FoldParents(y, x)
  {
  }

  predicate WellFormed(x: StatusRange) { Le(x.0, x.1) }

  /** Both folds keep a range's pessimistic bound at or below its optimistic one. */
  lemma FoldsKeepWellFormed(x: StatusRange, y: StatusRange)
    requires WellFormed(x) && WellFormed(y)
    ensures FoldPossibilities(x, y).Ok? ==> WellFormed(FoldPossibilities(x, y).value)
    ensures FoldParents(x, y).Ok? ==> WellFormed(FoldParents(x, y).value)
  {
  }

  // ---------------------------------------------------------------------
  // Status resolution

  /** What the store answers `find_words_by_text` with. */
  type Store = map<string, seq<Word>>

  function FindWords(store: Store, text: string): seq<Word>
  {
    if text in store then store[text] else []
  }

  /** A caller-supplied per-word status override (`eval`). */
  type Eval = Word -> Option<WordStatus>

  /** The `eval` that `resolve_status` and `resolve_stati` pass: the stored status. */
  function StoredStatus(w: Word): Option<WordStatus> { w.status }

  /** `resolve_status_with_eval`. The source recurses through parents without a
      bound; `fuel` bounds the depth of parent lookups. */
  function ResolveStatus(store: Store, w: Word, eval: Eval, fuel: nat): Result<StatusRange>
    decreases fuel, 2, 0
  {
    match eval(w)
    case Some(s) => Ok((s, s))
    case None => FoldParentsOver(store, w.parents, (WellKnown, WellKnown), fuel)
  }

  /** The loop over `word.parents` in `resolve_status_with_eval`: each parent
      text is looked up and resolved with the stored statuses. */
  function FoldParentsOver(store: Store, parents: seq<string>, acc: StatusRange, fuel: nat): Result<StatusRange>
    decreases fuel, 1, |parents|
  {
    if parents == [] then Ok(acc)
    else if fuel == 0 then Err(Exhausted)
    else
      var pr :- ResolveStati(store, FindWords(store, parents[0]), StoredStatus, fuel - 1);
      var acc' :- FoldParents(acc, pr);
      FoldParentsOver(store, parents[1..], acc', fuel)
  }

  /** `resolve_stati_with_eval`: folds alternative senses from (Unknown, Unknown). */
  function ResolveStati(store: Store, words: seq<Word>, eval: Eval, fuel: nat): Result<StatusRange>
    decreases fuel, 3, 0
  {
    FoldSenses(store, words, eval, (Unknown, Unknown), fuel)
  }

  function FoldSenses(store: Store, words: seq<Word>, eval: Eval, acc: StatusRange, fuel: nat): Result<StatusRange>
    decreases fuel, 2, |words| + 1
  {
    if words == [] then Ok(acc)
    else
      var r :- ResolveStatus(store, words[0], eval, fuel);
      var acc' :- FoldPossibilities(acc, r);
      FoldSenses(store, words[1..], eval, acc', fuel)
  }

  /** More fuel never changes an answer that did not run out of fuel: the bound
      only decides whether the walk finishes. */
  lemma {:induction false} ResolveStatusFuel(store: Store, w: Word, eval: Eval, fuel: nat, more: nat)
    requires fuel <= more
    requires ResolveStatus(store, w, eval, fuel) != Err(Exhausted)
    ensures ResolveStatus(store, w, eval, more) == ResolveStatus(store, w, eval, fuel)
    decreases fuel, 2, 0
  {
    if eval(w).None? {
      FoldParentsOverFuel(store, w.parents, (WellKnown, WellKnown), fuel, more);
    }
  }

  lemma {:induction false} FoldParentsOverFuel(store: Store, parents: seq<string>, acc: StatusRange, fuel: nat, more: nat)
    requires fuel <= more
    requires FoldParentsOver(store, parents, acc, fuel) != Err(Exhausted)
    ensures FoldParentsOver(store, parents, acc, more) == FoldParentsOver(store, parents, acc, fuel)
    decreases fuel, 1, |parents|
  {
    if parents != [] {
      var words := FindWords(store, parents[0]);
      var pr := ResolveStati(store, words, StoredStatus, fuel - 1);
      if pr != Err(Exhausted) {
        FoldSensesFuel(store, words, StoredStatus, (Unknown, Unknown), fuel - 1, more - 1);
        if pr.Ok? {
          var acc' := FoldParents(acc, pr.value);
          if acc'.Ok? {
            FoldParentsOverFuel(store, parents[1..], acc'.value, fuel, more);
          }
        }
      }
    }
  }

  lemma {:induction false} FoldSensesFuel(store: Store, words: seq<Word>, eval: Eval, acc: StatusRange, fuel: nat, more: nat)
    requires fuel <= more
    requires FoldSenses(store, words, eval, acc, fuel) != Err(Exhausted)
    ensures FoldSenses(store, words, eval, acc, more) == FoldSenses(store, words, eval, acc, fuel)
    decreases fuel, 2, |words| + 1
  {
    if words != [] {
      var r := ResolveStatus(store, words[0], eval, fuel);
      if r != Err(Exhausted) {
        ResolveStatusFuel(store, words[0], eval, fuel, more);
        if r.Ok? {
          var acc' := FoldPossibilities(acc, r.value);
          if acc'.Ok? {
            FoldSensesFuel(store, words[1..], eval, acc'.value, fuel, more);
          }
        }
      }
    }
  }

  /** Parents can only lower a word's range: the result of folding parents into
      a running range is at or below it in both bounds, unless a parent is
      Ignored, which makes the whole range Ignored. */
  lemma {:induction false} FoldParentsOverLowers(store: Store, parents: seq<string>, acc: StatusRange, fuel: nat)
    requires FoldParentsOver(store, parents, acc, fuel).Ok?
    ensures var r := FoldParentsOver(store, parents, acc, fuel).value;
            r == (Ignored, Ignored) || (Le(r.0, acc.0) && Le(r.1, acc.1))
    ensures acc == (Ignored, Ignored) ==>
              FoldParentsOver(store, parents, acc, fuel).value == (Ignored, Ignored)
    decreases |parents|
  {
    if parents != [] {
      var pr := ResolveStati(store, FindWords(store, parents[0]), StoredStatus, fuel - 1);
      var acc' := FoldParents(acc, pr.value);
      FoldParentsLowers(acc, pr.value);
      FoldParentsOverLowers(store, parents[1..], acc'.value, fuel);
    }
  }

  /** A word that has no status of its own and no parents resolves to
      (WellKnown, WellKnown): the fold over its parents starts there and has
      nothing to lower it. */
  lemma ResolveThroughParents(store: Store, w: Word, eval: Eval, fuel: nat)
    requires eval(w).None?
    requires ResolveStatus(store, w, eval, fuel).Ok?
    ensures w.parents == [] ==> ResolveStatus(store, w, eval, fuel) == Ok((WellKnown, WellKnown))
  {
  }

  /** An Ignored sense before a New one is skipped: the text resolves to (New, New). */
  lemma IgnoredThenNew(store: Store, a: Word, b: Word, fuel: nat)
    requires a.status == Some(Ignored) && b.status == Some(New)
    ensures ResolveStati(store, [a, b], StoredStatus, fuel) == Ok((New, New))
  {
    assert ResolveStatus(store, a, StoredStatus, fuel) == Ok((Ignored, Ignored));
    assert ResolveStatus(store, b, StoredStatus, fuel) == Ok((New, New));
    assert [a, b][1..] == [b] && [b][1..] == [];
    assert FoldSenses(store, [b], StoredStatus, (Ignored, Ignored), fuel) == Ok((New, New));
  }

  /** What an Ignored sense turns a fold result into: only a text with no
      resolved sense, (Unknown, Unknown), becomes (Ignored, Ignored). */
  function WithIgnored(r: Result<StatusRange>): Result<StatusRange>
  {
    if r == Ok((Unknown, Unknown)) then Ok((Ignored, Ignored)) else r
  }

  /** Once the running range is not (Unknown, Unknown) it never is again. */
  lemma {:induction false} FoldSensesStaysKnown(store: Store, words: seq<Word>, eval: Eval, acc: StatusRange, fuel: nat)
    requires acc != (Unknown, Unknown)
    ensures FoldSenses(store, words, eval, acc, fuel) != Ok((Unknown, Unknown))
    decreases |words|
  {
    if words != [] {
      var r := ResolveStatus(store, words[0], eval, fuel);
      if r.Ok? {
        var f := FoldPossibilities(acc, r.value);
        if f.Ok? {
          assert f.value != (Unknown, Unknown);
          FoldSensesStaysKnown(store, words[1..], eval, f.value, fuel);
        }
      }
    }
  }

  /** Folding from (Ignored, Ignored) is folding from (Unknown, Unknown),
      except that an all-Unknown result stays (Ignored, Ignored). */
  lemma {:induction false} FoldSensesFromIgnored(store: Store, words: seq<Word>, eval: Eval, fuel: nat)
    ensures FoldSenses(store, words, eval, (Ignored, Ignored), fuel)
            == WithIgnored(FoldSenses(store, words, eval, (Unknown, Unknown), fuel))
    decreases |words|
  {
    if words != [] {
      var r := ResolveStatus(store, words[0], eval, fuel);
      if r.Ok? {
        if r.value == (Unknown, Unknown) {
          FoldSensesFromIgnored(store, words[1..], eval, fuel);
        } else {
          FoldSensesStaysKnown(store, words[1..], eval, r.value, fuel);
        }
      }
    }
  }

  /** An Ignored sense is skipped wherever it stands among a text's senses:
      the range is that of the other senses, except that a text with no other
      resolved sense, (Unknown, Unknown), comes out (Ignored, Ignored),
      because the fold's (Unknown, Unknown) arm comes before its Ignored arm. */
  lemma {:induction false} IgnoredSenseSkipped(store: Store, words: seq<Word>, i: nat, w: Word,
                                               eval: Eval, acc: StatusRange, fuel: nat)
    requires i <= |words|
    requires ResolveStatus(store, w, eval, fuel) == Ok((Ignored, Ignored))
    ensures FoldSenses(store, words[..i] + [w] + words[i..], eval, acc, fuel)
            == WithIgnored(FoldSenses(store, words, eval, acc, fuel))
    decreases i
  {
    var ws := words[..i] + [w] + words[i..];
    if i == 0 {
      assert ws == [w] + words;
      assert ws[0] == w && ws[1..] == words;
      if acc == (Unknown, Unknown) {
        FoldSensesFromIgnored(store, words, eval, fuel);
      } else {
        assert FoldPossibilities(acc, (Ignored, Ignored)) == Ok(acc);
        FoldSensesStaysKnown(store, words, eval, acc, fuel);
      }
    } else {
      assert ws[0] == words[0];
      assert ws[1..] == words[1..][..i - 1] + [w] + words[1..][i - 1..];
      var r := ResolveStatus(store, words[0], eval, fuel);
      if r.Ok? {
        var f := FoldPossibilities(acc, r.value);
        if f.Ok? {
          IgnoredSenseSkipped(store, words[1..], i - 1, w, eval, f.value, fuel);
        }
      }
    }
  }

  /** The same for the senses of a text, folded from (Unknown, Unknown). */
  lemma IgnoredSenseResolved(store: Store, words: seq<Word>, i: nat, w: Word, eval: Eval, fuel: nat)
    requires i <= |words|
    requires ResolveStatus(store, w, eval, fuel) == Ok((Ignored, Ignored))
    ensures ResolveStati(store, words[..i] + [w] + words[i..], eval, fuel)
            == WithIgnored(ResolveStati(store, words, eval, fuel))
  {
    IgnoredSenseSkipped(store, words, i, w, eval, (Unknown, Unknown), fuel);
  }

  /** `resolve_status_with_eval`, written with its loop over the parents. */
  method ResolveStatusWithEval(store: Store, w: Word, eval: Eval, fuel: nat) returns (r: Result<StatusRange>)
    ensures r == ResolveStatus(store, w, eval, fuel)
    ensures eval(w).Some? ==> r == Ok((eval(w).value, eval(w).value))
    decreases fuel, 2, 0
  {
    var e := eval(w);
    if e.Some? {
      return Ok((e.value, e.value));
    }
    var range := (WellKnown, WellKnown);
    var k := 0;
    while k < |w.parents|
      invariant 0 <= k <= |w.parents|
      invariant FoldParentsOver(store, w.parents[k..], range, fuel)
                == FoldParentsOver(store, w.parents, (WellKnown, WellKnown), fuel)
    {
      assert w.parents[k..][1..] == w.parents[k + 1..];
      if fuel == 0 {
        return Err(Exhausted);
      }
      var parentWords := FindWords(store, w.parents[k]);
      var pr := ResolveStatiWithEval(store, parentWords, StoredStatus, fuel - 1);
      if pr.Err? {
        return Err(pr.error);
      }
      var next := FoldParents(range, pr.value);
      if next.Err? {
        return Err(next.error);
      }
      range := next.value;
      k := k + 1;
    }
    assert w.parents[k..] == [];
    return Ok(range);
  }

  /** `resolve_stati_with_eval`, written with its loop over the senses. */
  method ResolveStatiWithEval(store: Store, words: seq<Word>, eval: Eval, fuel: nat) returns (r: Result<StatusRange>)
    ensures r == ResolveStati(store, words, eval, fuel)
    decreases fuel, 3, 0
  {
    var range := (Unknown, Unknown);
    var k := 0;
    while k < |words|
      invariant 0 <= k <= |words|
      invariant FoldSenses(store, words[k..], eval, range, fuel)
                == FoldSenses(store, words, eval, (Unknown, Unknown), fuel)
    {
      assert words[k..][1..] == words[k + 1..];
      var wr := ResolveStatusWithEval(store, words[k], eval, fuel);
      if wr.Err? {
        return Err(wr.error);
      }
      var next := FoldPossibilities(range, wr.value);
      if next.Err? {
        return Err(next.error);
      }
      range := next.value;
      k := k + 1;
    }
    assert words[k..] == [];
    return Ok(range);
  }

  // ---------------------------------------------------------------------
  // Parent closure

  /** The texts named as parents by any of `words`. */
  function ParentTexts(words: seq<Word>): (r: set<string>)
    ensures forall p :: p in r <==> exists w :: w in words && p in w.parents
  {
    if words == [] then {}
    else
      var r := (set p | p in words[0].parents) + ParentTexts(words[1..]);
      assert forall w :: w in words <==> w == words[0] || w in words[1..];
      r
  }

  /** `b` is named as a parent by some word stored under `a`. */
  predicate ParentOf(store: Store, a: string, b: string) {
    b in ParentTexts(FindWords(store, a))
  }

  /** A chain of parent links starting at one of `texts`. */
  ghost predicate IsChain(store: Store, texts: seq<string>, path: seq<string>) {
    |path| >= 1 && path[0] in texts
    && forall i | 0 <= i < |path| - 1 :: ParentOf(store, path[i], path[i + 1])
  }

  ghost predicate Reachable(store: Store, texts: seq<string>, t: string) {
    exists path :: IsChain(store, texts, path) && path[|path| - 1] == t
  }

  /** Every parent text appearing anywhere in the store. */
  function AllParents(store: Store): set<string>
  {
    set t, p | t in store && p in ParentTexts(store[t]) :: p
  }

  /** A set that holds the start texts and is closed under parents holds every
      reachable text. */
  lemma {:induction false} ClosedHoldsReachable(store: Store, texts: seq<string>, keys: set<string>, path: seq<string>)
    requires forall t | t in texts :: t in keys
    requires forall a, p | a in keys && ParentOf(store, a, p) :: p in keys
    requires IsChain(store, texts, path)
    ensures path[|path| - 1] in keys
    decreases |path|
  {
    if |path| > 1 {
      var prefix := path[..|path| - 1];
      assert IsChain(store, texts, prefix);
      ClosedHoldsReachable(store, texts, keys, prefix);
      assert ParentOf(store, path[|path| - 2], path[|path| - 1]);
    }
  }

  /** A chain extended by a parent link is a chain. */
  lemma ExtendChain(store: Store, texts: seq<string>, path: seq<string>, p: string)
    requires IsChain(store, texts, path) && ParentOf(store, path[|path| - 1], p)
    ensures Reachable(store, texts, p)
  {
    var path' := path + [p];
    assert IsChain(store, texts, path');
  }

  /** The two nested loops of `find_word_trees_by_text` that queue every parent
      of `words` not yet in `result`. */
  method EnqueueParents(result: map<string, seq<Word>>, q: seq<string>, words: seq<Word>) returns (q': seq<string>)
    ensures q <= q'
    ensures forall j | |q| <= j < |q'| :: q'[j] !in result && q'[j] in ParentTexts(words)
    ensures forall p | p in ParentTexts(words) :: p in result || p in q'
  {
    q' := q;
    for k := 0 to |words|
      invariant q <= q'
      invariant forall j | |q| <= j < |q'| :: q'[j] !in result && q'[j] in ParentTexts(words)
      invariant forall i, p | 0 <= i < k && p in words[i].parents :: p in result || p in q'
    {
      for m := 0 to |words[k].parents|
        invariant q <= q'
        invariant forall j | |q| <= j < |q'| :: q'[j] !in result && q'[j] in ParentTexts(words)
        invariant forall i, p | 0 <= i < k && p in words[i].parents :: p in result || p in q'
        invariant forall j | 0 <= j < m :: words[k].parents[j] in result || words[k].parents[j] in q'
      {
        var parent := words[k].parents[m];
        if parent !in result {
          assert words[k] in words;
          q' := q' + [parent];
        }
      }
    }
  }

  /** The loop invariant of `find_word_trees_by_text`: everything found or
      queued is reachable and in the walk's universe, every found text maps to
      its words, every start text and every parent of a found text is found or
      queued, and each found text was looked up exactly once. */
  ghost predicate WalkInv(store: Store, texts: seq<string>, universe: set<string>,
                          result: map<string, seq<Word>>, q: seq<string>, lookups: seq<string>)
  {
    && universe == (set t | t in texts) + AllParents(store)
    && Sound(store, texts, universe, result, q)
    && (forall t | t in result :: result[t] == FindWords(store, t))
    && (forall t | t in texts :: t in result || t in q)
    && Closed(store, result, q)
    && NoDup(lookups) && (forall t :: t in lookups <==> t in result)
  }

  ghost predicate Sound(store: Store, texts: seq<string>, universe: set<string>,
                        result: map<string, seq<Word>>, q: seq<string>)
  {
    && (forall t | t in result :: t in universe && Reachable(store, texts, t))
    && (forall t | t in q :: t in universe && Reachable(store, texts, t))
  }

  ghost predicate Closed(store: Store, result: map<string, seq<Word>>, q: seq<string>) {
    forall a, p | a in result && ParentOf(store, a, p) :: p in result || p in q
  }

  lemma WalkStart(store: Store, texts: seq<string>)
    ensures WalkInv(store, texts, (set t | t in texts) + AllParents(store), map[], texts, [])
  {
    forall t | t in texts ensures Reachable(store, texts, t) {
      assert IsChain(store, texts, [t]);
    }
  }

  /** Dropping a text that is already found keeps the invariant. */
  lemma WalkSkip(store: Store, texts: seq<string>, universe: set<string>,
                 result: map<string, seq<Word>>, q: seq<string>, lookups: seq<string>)
    requires WalkInv(store, texts, universe, result, q, lookups)
    requires q != [] && q[0] in result
    ensures WalkInv(store, texts, universe, result, q[1..], lookups)
  {
    assert forall t | t in q :: t == q[0] || t in q[1..];
  }

  lemma VisitSound(store: Store, texts: seq<string>, universe: set<string>,
                   result: map<string, seq<Word>>, q: seq<string>, q': seq<string>)
    requires universe == (set t | t in texts) + AllParents(store)
    requires Sound(store, texts, universe, result, q)
    requires q != [] && q[1..] <= q'
    requires forall j | |q| - 1 <= j < |q'| :: q'[j] in ParentTexts(FindWords(store, q[0]))
    ensures Sound(store, texts, universe, result[q[0] := FindWords(store, q[0])], q')
  {
    assert q[0] in q;
    NewEntries(store, texts, universe, q[0], q[1..], q');
  }

  lemma VisitClosed(store: Store, result: map<string, seq<Word>>, q: seq<string>, q': seq<string>)
    requires Closed(store, result, q)
    requires q != [] && q[1..] <= q'
    requires forall p | p in ParentTexts(FindWords(store, q[0])) :: p in result || p in q'
    ensures Closed(store, result[q[0] := FindWords(store, q[0])], q')
  {
    var text := q[0];
    var result' := result[text := FindWords(store, text)];
    forall a, p | a in result' && ParentOf(store, a, p) ensures p in result' || p in q' {
      if a != text {
        assert p in result || p in q;
        assert p in q ==> p == text || p in q[1..];
      }
    }
  }

  /** Looking up a new text and queueing its unfound parents keeps the
      invariant. */
  lemma WalkVisit(store: Store, texts: seq<string>, universe: set<string>,
                  result: map<string, seq<Word>>, q: seq<string>, lookups: seq<string>, q': seq<string>)
    requires WalkInv(store, texts, universe, result, q, lookups)
    requires q != [] && q[0] !in result
    requires q[1..] <= q'
    requires forall j | |q| - 1 <= j < |q'| :: q'[j] in ParentTexts(FindWords(store, q[0]))
    requires forall p | p in ParentTexts(FindWords(store, q[0])) :: p in result || p in q'
    ensures WalkInv(store, texts, universe, result[q[0] := FindWords(store, q[0])], q', lookups + [q[0]])
  {
    var text := q[0];
    var lookups' := lookups + [text];
    var result' := result[text := FindWords(store, text)];
    VisitSound(store, texts, universe, result, q, q');
    VisitClosed(store, result, q, q');
    assert forall t | t in q :: t == text || t in q[1..];
    assert forall t :: t in lookups' <==> t in lookups || t == text;
    assert WalkInv(store, texts, universe, result', q', lookups');
  }

  /** `find_word_trees_by_text`: a breadth-first walk from `texts` through
      parents, looking each text up once, that stops on cycles. The result maps
      exactly the reachable texts to their words. */
  method FindWordTrees(store: Store, texts: seq<string>) returns (result: map<string, seq<Word>>, ghost lookups: seq<string>)
    ensures forall t :: t in result <==> Reachable(store, texts, t)
    ensures forall t | t in result :: result[t] == FindWords(store, t)
    ensures NoDup(lookups) && (forall t :: t in lookups <==> t in result)
  {
    ghost var universe := (set t | t in texts) + AllParents(store);
    result := map[];
    lookups := [];
    var q := texts;
    WalkStart(store, texts);
    while q != []
      invariant WalkInv(store, texts, universe, result, q, lookups)
      decreases |universe - result.Keys|, |q|
    {
      result, q, lookups := WalkStep(store, texts, universe, result, q, lookups);
    }
    WalkDone(store, texts, universe, result, lookups);
  }

  /** One turn of the loop in `find_word_trees_by_text`: pop the front text and,
      unless it is already found, look it up and queue its unfound parents. */
  method WalkStep(store: Store, texts: seq<string>, ghost universe: set<string>,
                  result: map<string, seq<Word>>, q: seq<string>, ghost lookups: seq<string>)
    returns (result': map<string, seq<Word>>, q': seq<string>, ghost lookups': seq<string>)
    requires WalkInv(store, texts, universe, result, q, lookups) && q != []
    ensures WalkInv(store, texts, universe, result', q', lookups')
    ensures (result' == result && |q'| < |q|)
            || (result.Keys < result'.Keys && |universe - result'.Keys| < |universe - result.Keys|)
  {
    var text := q[0];
    if text in result {
      WalkSkip(store, texts, universe, result, q, lookups);
      return result, q[1..], lookups;
    }
    var words := FindWords(store, text);
    q' := EnqueueParents(result, q[1..], words);
    WalkVisit(store, texts, universe, result, q, lookups, q');
    result' := result[text := words];
    lookups' := lookups + [text];
    assert text in universe - result.Keys;
    assert universe - result'.Keys < universe - result.Keys;
  }

  /** When the queue is empty the found texts are exactly the reachable ones. */
  lemma WalkDone(store: Store, texts: seq<string>, universe: set<string>,
                 result: map<string, seq<Word>>, lookups: seq<string>)
    requires WalkInv(store, texts, universe, result, [], lookups)
    ensures forall t :: t in result <==> Reachable(store, texts, t)
  {
    forall t | Reachable(store, texts, t) ensures t in result {
      var path :| IsChain(store, texts, path) && path[|path| - 1] == t;
      ClosedHoldsReachable(store, texts, result.Keys, path);
    }
  }

  /** The texts queued for the parents of a reachable text are reachable and
      lie in the walk's universe. */
  lemma NewEntries(store: Store, texts: seq<string>, universe: set<string>, text: string, q0: seq<string>, q: seq<string>)
    requires universe == (set t | t in texts) + AllParents(store)
    requires Reachable(store, texts, text)
    requires forall t | t in q0 :: t in universe && Reachable(store, texts, t)
    requires q0 <= q
    requires forall j | |q0| <= j < |q| :: q[j] in ParentTexts(FindWords(store, text))
    ensures forall t | t in q :: t in universe && Reachable(store, texts, t)
  {
    var path :| IsChain(store, texts, path) && path[|path| - 1] == text;
    forall j | |q0| <= j < |q| ensures q[j] in universe && Reachable(store, texts, q[j]) {
      ExtendChain(store, texts, path, q[j]);
      assert text in store;
    }
    forall t | t in q ensures t in universe && Reachable(store, texts, t) {
      var j :| 0 <= j < |q| && q[j] == t;
      if j < |q0| { assert q0[j] == t; }
    }
  }
}
