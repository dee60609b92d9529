/** The status override of the `readability_stats` tool
    (src/bin/readability_stats.rs): tags that put a floor under a word's
    status, the segment rating that falls back to (Unknown, Unknown), and the
    rating distributions counted from the segments. */
module ReadabilityStats {
  import opened Common
  import opened Dict

  /** `TAG_MIN_STATUSES`: the least status a word with the tag is rated at. */
  const TAG_MIN_STATUSES: map<string, WordStatus> :=
    map["loan" := WellKnown, "transliteration" := WellKnown,
        "topik1" := WellKnown, "topik1v" := WellKnown,
        "topik2" := Level3, "topik2v" := Level3]

  /** The minimum of the first of `tags` listed in the table. */
  function FirstTagMin(tags: seq<string>): (r: Option<WordStatus>)
    ensures r.None? <==> forall k | 0 <= k < |tags| :: tags[k] !in TAG_MIN_STATUSES
    ensures r.Some? ==>
              exists k | 0 <= k < |tags| ::
                && tags[k] in TAG_MIN_STATUSES && TAG_MIN_STATUSES[tags[k]] == r.value
                && forall j | 0 <= j < k :: tags[j] !in TAG_MIN_STATUSES
  {
    if tags == [] then None
    else if tags[0] in TAG_MIN_STATUSES then Some(TAG_MIN_STATUSES[tags[0]])
    else
      var r := FirstTagMin(tags[1..]);
      assert forall k | 1 <= k < |tags| :: tags[k] == tags[1..][k - 1];
      if r.Some? then
        var k :| 0 <= k < |tags[1..]| && tags[1..][k] in TAG_MIN_STATUSES
                 && TAG_MIN_STATUSES[tags[1..][k]] == r.value
                 && forall j | 0 <= j < k :: tags[1..][j] !in TAG_MIN_STATUSES;
        assert tags[k + 1] == tags[1..][k];
        assert forall j | 0 <= j < k + 1 :: tags[j] !in TAG_MIN_STATUSES by {
          forall j | 0 <= j < k + 1 ensures tags[j] !in TAG_MIN_STATUSES {
            if j > 0 { assert tags[j] == tags[1..][j - 1]; }
          }
        }
        r
      else r
  }

  /** The `eval_status` closure: an Ignored word stays Ignored; otherwise
      the first listed tag raises the stored status to its minimum (or
      supplies it when none is stored); a word without a listed tag keeps
      its stored status. */
  function EvalStatus(w: Word): Option<WordStatus> {
    if w.status == Some(Ignored) then w.status
    else match FirstTagMin(w.tags)
      case Some(m) => if w.status.Some? then Some(Max(w.status.value, m)) else Some(m)
      case None => w.status
  }

  /** The three cases of the override. With a listed tag the result is the
      least status at or above both the tag minimum and the stored status. */
  lemma EvalStatusSpec(w: Word)
    ensures w.status == Some(Ignored) ==> EvalStatus(w) == Some(Ignored)
    ensures w.status != Some(Ignored) && FirstTagMin(w.tags).Some? ==>
              var m := FirstTagMin(w.tags).value;
              && EvalStatus(w).Some?
              && Le(m, EvalStatus(w).value)
              && (w.status.Some? ==> Le(w.status.value, EvalStatus(w).value))
              && (EvalStatus(w).value == m || EvalStatus(w) == w.status)
    ensures FirstTagMin(w.tags).None? ==> EvalStatus(w) == w.status
  {
  }

  /** The override never lowers a stored status, and it never makes a
      status up for an untagged word. */
  lemma EvalNeverLowers(w: Word)
    ensures w.status.Some? ==> EvalStatus(w).Some? && Le(w.status.value, EvalStatus(w).value)
    ensures EvalStatus(w).None? <==> w.status.None? && FirstTagMin(w.tags).None?
  {
  }

  /** A tagged word with no stored status is rated at its tag minimum at
      once, without its parents being consulted. */
  lemma TaggedWordResolves(store: Store, w: Word, fuel: nat)
    requires w.status.None? && FirstTagMin(w.tags).Some?
    ensures var m := FirstTagMin(w.tags).value;
      ResolveStatus(store, w, EvalStatus, fuel) == Ok((m, m))
  {
  }

  /** A segment's (pessimistic, optimistic) rating: the resolution with the
      override, or (Unknown, Unknown) when it fails. */
  function SegmentRating(store: Store, words: seq<Word>, fuel: nat): (r: StatusRange)
    ensures ResolveStati(store, words, EvalStatus, fuel).Err? ==> r == (Unknown, Unknown)
    ensures ResolveStati(store, words, EvalStatus, fuel).Ok? ==>
              r == ResolveStati(store, words, EvalStatus, fuel).value
  {
    match ResolveStati(store, words, EvalStatus, fuel)
    case Ok(range) => range
    case Err(_) => (Unknown, Unknown)
  }

  type Distribution = map<WordStatus, nat>

  function Count(d: Distribution, s: WordStatus): nat {
    if s in d then d[s] else 0
  }

  /** The pessimistic and optimistic ratings of every segment, in order. */
  function Ratings(store: Store, segs: seq<seq<Word>>, fuel: nat): (r: seq<StatusRange>)
    ensures |r| == |segs|
    ensures forall i | 0 <= i < |segs| :: r[i] == SegmentRating(store, segs[i], fuel)
  {
    seq(|segs|, i requires 0 <= i < |segs| => SegmentRating(store, segs[i], fuel))
  }

  function Pessimistic(rs: seq<StatusRange>): (r: seq<WordStatus>)
    ensures |r| == |rs| && forall i | 0 <= i < |rs| :: r[i] == rs[i].0
  {
    seq(|rs|, i requires 0 <= i < |rs| => rs[i].0)
  }

  function Optimistic(rs: seq<StatusRange>): (r: seq<WordStatus>)
    ensures |r| == |rs| && forall i | 0 <= i < |rs| :: r[i] == rs[i].1
  {
    seq(|rs|, i requires 0 <= i < |rs| => rs[i].1)
  }

  /** Bumping the count of `x` adds one `x` to the counted multiset. */
  lemma Bump(d: Distribution, ms: multiset<WordStatus>, x: WordStatus)
    requires forall s :: Count(d, s) == ms[s]
    ensures forall s :: Count(d[x := Count(d, x) + 1], s) == (ms + multiset{x})[s]
  {
  }

  /** One more segment adds its two ratings to the two projections. */
  lemma RatingsStep(rs: seq<StatusRange>, i: nat)
    requires i < |rs|
    ensures multiset(Pessimistic(rs[..i + 1])) == multiset(Pessimistic(rs[..i])) + multiset{rs[i].0}
    ensures multiset(Optimistic(rs[..i + 1])) == multiset(Optimistic(rs[..i])) + multiset{rs[i].1}
  {
    assert rs[..i + 1] == rs[..i] + [rs[i]];
    assert Pessimistic(rs[..i + 1]) == Pessimistic(rs[..i]) + [rs[i].0];
    assert Optimistic(rs[..i + 1]) == Optimistic(rs[..i]) + [rs[i].1];
  }

  /** The loop over segments that bumps `pessimistic_rating_dist` and
      `optimistic_rating_dist`: each distribution counts every segment
      once, under its rating. */
  method RatingDistributions(store: Store, segs: seq<seq<Word>>, fuel: nat)
    returns (pes: Distribution, opt: Distribution)
    ensures forall s :: Count(pes, s) == multiset(Pessimistic(Ratings(store, segs, fuel)))[s]
    ensures forall s :: Count(opt, s) == multiset(Optimistic(Ratings(store, segs, fuel)))[s]
  {
    pes := map[];
    opt := map[];
    ghost var rs := Ratings(store, segs, fuel);
    for i := 0 to |segs|
      invariant forall s :: Count(pes, s) == multiset(Pessimistic(rs[..i]))[s]
      invariant forall s :: Count(opt, s) == multiset(Optimistic(rs[..i]))[s]
    {
      var rating := SegmentRating(store, segs[i], fuel);
      assert rating == rs[i];
      RatingsStep(rs, i);
      Bump(pes, multiset(Pessimistic(rs[..i])), rating.0);
      Bump(opt, multiset(Optimistic(rs[..i])), rating.1);
      pes := pes[rating.0 := Count(pes, rating.0) + 1];
      opt := opt[rating.1 := Count(opt, rating.1) + 1];
    }
    assert rs[..|segs|] == rs;
  }
}
