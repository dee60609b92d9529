/** Pure helpers of the web server (src/main.rs): word validation, the
    status range of a segment, the window of cues around a time, the split of
    a duration into clock fields, YouTube video ids and the parent walk that
    lists a segment's dependencies. */
module Server {
  import opened Common
  import opened Dict
  import DocVtt

  // ---------------------------------------------------------------------
  // validate_word

  /** The length of a list after `sort` and `dedup`: its number of distinct
      items. */
  function DistinctCount<T(==)>(xs: seq<T>): nat
  {
    |set x | x in xs|
  }

  /** Sorting and deduplicating keeps the length exactly when nothing is
      repeated, and never lengthens the list. */
  lemma {:induction false} DistinctCountNoDup<T>(xs: seq<T>)
    ensures DistinctCount(xs) <= |xs|
    ensures DistinctCount(xs) == |xs| <==> NoDup(xs)
    decreases |xs|
  {
    if xs != [] {
      var rest := xs[1..];
      DistinctCountNoDup(rest);
      var s, s' := set x | x in xs, set x | x in rest;
      assert s == s' + {xs[0]};
      if xs[0] in rest {
        assert s == s';
        var j :| 0 <= j < |rest| && rest[j] == xs[0];
        assert xs[0] == xs[j + 1];
      } else {
        assert |s| == |s'| + 1;
        if NoDup(rest) {
          forall i, j | 0 <= i < j < |xs| ensures xs[i] != xs[j] {
            if i == 0 {
              assert xs[j] == rest[j - 1];
            } else {
              assert xs[i] == rest[i - 1] && xs[j] == rest[j - 1];
            }
          }
        } else {
          var i, j :| 0 <= i < j < |rest| && rest[i] == rest[j];
          assert xs[i + 1] == xs[j + 1];
        }
      }
    }
  }

  /** `validate_word`: a word may not be its own parent, and may name no
      parent and no tag twice; the checks run in that order. */
  function ValidateWord(w: Word): Result<()>
  {
    if w.text in w.parents then Err(Status(BAD_REQUEST, "word cannot be its own parent"))
    else if DistinctCount(w.parents) != |w.parents| then Err(Status(BAD_REQUEST, "duplicate parents"))
    else if DistinctCount(w.tags) != |w.tags| then Err(Status(BAD_REQUEST, "duplicate tags"))
    else Ok(())
  }

  /** A word is accepted exactly when it is not its own parent and repeats
      neither a parent nor a tag; otherwise the first failed check is
      reported as a bad request. */
  lemma ValidateWordSpec(w: Word)
    ensures ValidateWord(w).Ok? <==> w.text !in w.parents && NoDup(w.parents) && NoDup(w.tags)
    ensures w.text in w.parents ==> ValidateWord(w) == Err(Status(BAD_REQUEST, "word cannot be its own parent"))
    ensures w.text !in w.parents && !NoDup(w.parents) ==> ValidateWord(w) == Err(Status(BAD_REQUEST, "duplicate parents"))
    ensures w.text !in w.parents && NoDup(w.parents) && !NoDup(w.tags) ==>
              ValidateWord(w) == Err(Status(BAD_REQUEST, "duplicate tags"))
  {
    DistinctCountNoDup(w.parents);
    DistinctCountNoDup(w.tags);
  }

  // ---------------------------------------------------------------------
  // resolve_status

  /** One step of the fold in `resolve_status`: `Unknown` in the accumulator
      stands for "not set yet". */
  function StepAsWritten(acc: StatusRange, r: StatusRange): StatusRange
  {
    (if acc.0 == Unknown then r.0 else Min(acc.0, r.0),
     if acc.1 == Unknown then r.1 else Max(acc.1, r.1))
  }

  /** The fold of `resolve_status` as written, over the words that have a
      resolved status. */
  function FoldAsWritten(words: seq<Word>): StatusRange
    decreases |words|
  {
    if words == [] then (Unknown, Unknown)
    else
      var acc := FoldAsWritten(words[..|words| - 1]);
      var last := words[|words| - 1];
      if last.resolvedStatus.None? then acc else StepAsWritten(acc, last.resolvedStatus.value)
  }

  /** `resolve_status` as written. */
  method ResolveStatusAsWritten(words: seq<Word>) returns (r: StatusRange)
    ensures r == FoldAsWritten(words)
  {
    var lo, hi := Unknown, Unknown;
    for k := 0 to |words|
      invariant (lo, hi) == FoldAsWritten(words[..k])
    {
      assert words[..k + 1][..k] == words[..k];
      match words[k].resolvedStatus {
        case None =>
        case Some((a, b)) =>
          lo := if lo == Unknown then a else Min(lo, a);
          hi := if hi == Unknown then b else Max(hi, b);
      }
    }
    assert words[..|words|] == words;
    r := (lo, hi);
  }

  /** The lowest low and the highest high of the resolved ranges, or `None`
      when no word has one. */
  function Extremes(words: seq<Word>): Option<StatusRange>
    decreases |words|
  {
    if words == [] then None
    else
      var acc := Extremes(words[..|words| - 1]);
      var last := words[|words| - 1];
      match last.resolvedStatus
      case None => acc
      case Some(r) => if acc.None? then Some(r) else Some((Min(acc.value.0, r.0), Max(acc.value.1, r.1)))
  }

  /** The status range of a segment: `(Unknown, Unknown)` when no word is
      resolved, otherwise the lowest low and the highest high. */
  function ResolvedRange(words: seq<Word>): StatusRange
  {
    if Extremes(words).None? then (Unknown, Unknown) else Extremes(words).value
  }

  /** `resolve_status` with "not set yet" kept apart from `Unknown`. */
  method ResolveStatus(words: seq<Word>) returns (r: StatusRange)
    ensures r == ResolvedRange(words)
  {
    var acc: Option<StatusRange> := None;
    for k := 0 to |words|
      invariant acc == Extremes(words[..k])
    {
      assert words[..k + 1][..k] == words[..k];
      match words[k].resolvedStatus {
        case None =>
        case Some((a, b)) =>
          acc := if acc.None? then Some((a, b)) else Some((Min(acc.value.0, a), Max(acc.value.1, b)));
      }
    }
    assert words[..|words|] == words;
    r := if acc.None? then (Unknown, Unknown) else acc.value;
  }

  /** The range is the lowest of the lows and the highest of the highs of
      the resolved words, each taken from one of them; with none resolved it
      is `None`. */
  lemma {:induction false} ExtremesSpec(words: seq<Word>)
    ensures Extremes(words).None? <==> forall k | 0 <= k < |words| :: words[k].resolvedStatus.None?
    ensures Extremes(words).Some? ==>
      (forall k | 0 <= k < |words| && words[k].resolvedStatus.Some? ::
         Le(Extremes(words).value.0, words[k].resolvedStatus.value.0)
         && Le(words[k].resolvedStatus.value.1, Extremes(words).value.1))
      && (exists k | 0 <= k < |words| && words[k].resolvedStatus.Some? ::
            words[k].resolvedStatus.value.0 == Extremes(words).value.0)
      && (exists k | 0 <= k < |words| && words[k].resolvedStatus.Some? ::
            words[k].resolvedStatus.value.1 == Extremes(words).value.1)
    decreases |words|
  {
    if words != [] {
      var init := words[..|words| - 1];
      var n := |words| - 1;
      ExtremesSpec(init);
      assert forall k | 0 <= k < n :: words[k] == init[k];
      var acc := Extremes(init);
      if words[n].resolvedStatus.Some? && acc.Some? {
        var lo := Extremes(words).value.0;
        var hi := Extremes(words).value.1;
        if lo != words[n].resolvedStatus.value.0 {
          var k :| 0 <= k < n && init[k].resolvedStatus.Some? && init[k].resolvedStatus.value.0 == acc.value.0;
          assert words[k].resolvedStatus.value.0 == lo;
        }
        if hi != words[n].resolvedStatus.value.1 {
          var k :| 0 <= k < n && init[k].resolvedStatus.Some? && init[k].resolvedStatus.value.1 == acc.value.1;
          assert words[k].resolvedStatus.value.1 == hi;
        }
      }
    }
  }

  /** The highs as written are right: `Unknown` is the lowest status, so
      taking it for "not set" changes no maximum. */
  lemma {:induction false} AsWrittenHigh(words: seq<Word>)
    ensures FoldAsWritten(words).1 == ResolvedRange(words).1
    decreases |words|
  {
    if words != [] {
      AsWrittenHigh(words[..|words| - 1]);
    }
  }

  /** When no resolved low is `Unknown`, the fold as written gives the range. */
  lemma {:induction false} AsWrittenWithoutUnknownLows(words: seq<Word>)
    requires forall k | 0 <= k < |words| && words[k].resolvedStatus.Some? :: words[k].resolvedStatus.value.0 != Unknown
    ensures FoldAsWritten(words) == ResolvedRange(words)
    decreases |words|
  {
    if words != [] {
      var init := words[..|words| - 1];
      assert forall k | 0 <= k < |init| :: init[k] == words[k];
      AsWrittenWithoutUnknownLows(init);
      AsWrittenHigh(words);
      ExtremesSpec(init);
    }
  }

  /** A word resolved to the given range. */
  function Resolving(r: StatusRange): Word
  {
    EmptyWord.(resolvedStatus := Some(r))
  }

  /** As written, the low depends on the order of the words: a low of
      `Unknown` met after another low is kept, but one met first is
      overwritten by the next word. The same three words give `Level3` in
      one order and `New` in another, while the lowest low is `Unknown`. */
  lemma AsWrittenOrderDependent()
    ensures var a, b, c := Resolving((New, New)), Resolving((Unknown, Unknown)), Resolving((Level3, Level3));
      FoldAsWritten([a, b, c]).0 == Level3
      && FoldAsWritten([b, a, c]).0 == New
      && ResolvedRange([a, b, c]).0 == Unknown
      && ResolvedRange([b, a, c]).0 == Unknown
  {
    var a, b, c := Resolving((New, New)), Resolving((Unknown, Unknown)), Resolving((Level3, Level3));
    assert [a, b, c][..2] == [a, b] && [a, b][..1] == [a] && [a][..0] == [];
    assert [b, a, c][..2] == [b, a] && [b, a][..1] == [b] && [b][..0] == [];
    assert Extremes([a]) == Some((New, New));
    assert Extremes([a, b]) == Some((Unknown, New));
    assert Extremes([a, b, c]).value.0 == Unknown;
    assert Extremes([b]) == Some((Unknown, Unknown));
    assert Extremes([b, a]) == Some((Unknown, New));
    assert Extremes([b, a, c]).value.0 == Unknown;
  }

  // ---------------------------------------------------------------------
  // The cue window in get_book_cues

  /** The answer of `binary_search_by`: `Ok(i)` or `Err(i)`. */
  datatype Search = Found(index: nat) | Missing(index: nat)

  /** What `binary_search_by` guarantees of its answer over `n` items. */
  predicate InRange(s: Search, n: nat) {
    match s
    case Found(i) => i < n
    case Missing(i) => i <= n
  }

  const USIZE_LIMIT: nat := 0x1_0000_0000_0000_0000

  /** `usize` subtraction without overflow checks: wraps modulo 2^64. */
  function WrappingSub(a: nat, b: nat): nat
    requires a < USIZE_LIMIT && b < USIZE_LIMIT
  {
    (a - b) % USIZE_LIMIT
  }

  function SaturatingSub(a: nat, b: nat): nat
  {
    if a >= b then a - b else 0
  }

  function MinNat(a: nat, b: nat): nat
  {
    if a <= b then a else b
  }

  /** The window `[min, max]` of `get_book_cues` as written: one cue either
      side of a match, or the cues either side of the insertion point,
      clamped at `cues.len() - 1`. */
  function CueWindowAsWritten(s: Search, n: nat): (nat, nat)
    requires n < USIZE_LIMIT && s.index + 1 < USIZE_LIMIT
  {
    var (lo, hi) := match s
      case Found(i) => (SaturatingSub(i, 1), i + 1)
      case Missing(i) => (SaturatingSub(i, 1), i);
    (lo, MinNat(hi, WrappingSub(n, 1)))
  }

  /** With no cues `cues.len() - 1` underflows: the window as written is
      `[0, 0]`, which does not lie inside the empty list, so `cues[min..=max]`
      panics. */
  lemma EmptyCueWindow()
    ensures CueWindowAsWritten(Missing(0), 0) == (0, 0)
    ensures !(CueWindowAsWritten(Missing(0), 0).1 < 0)
  {
  }

  /** The cue window, empty when there are no cues: otherwise the cue
      found and one either side, or the cues either side of the insertion
      point, within the list. */
  function CueWindow(s: Search, n: nat): (r: Option<(nat, nat)>)
    requires InRange(s, n)
    ensures r.None? <==> n == 0
    ensures r.Some? ==> r.value.0 <= r.value.1 < n && r.value.1 - r.value.0 <= 2
    ensures r.Some? && s.Found? ==> r.value.0 <= s.index <= r.value.1
    ensures r.Some? && s.Missing? ==>
      (s.index > 0 ==> r.value.0 <= s.index - 1 <= r.value.1)
      && (s.index < n ==> r.value.0 <= s.index <= r.value.1)
  {
    if n == 0 then None
    else
      var (lo, hi) := match s
        case Found(i) => (SaturatingSub(i, 1), i + 1)
        case Missing(i) => (SaturatingSub(i, 1), i);
      Some((lo, MinNat(hi, n - 1)))
  }

  /** With at least one cue the window as written is the window. */
  lemma CueWindowAgrees(s: Search, n: nat)
    requires InRange(s, n) && 0 < n < USIZE_LIMIT && s.index + 1 < USIZE_LIMIT
    ensures CueWindow(s, n) == Some(CueWindowAsWritten(s, n))
  {
  }

  // ---------------------------------------------------------------------
  // The duration split in post_import_video

  /** Rust's `/` on `i64`: rounds toward zero. */
  function TruncDiv(a: int, d: nat): int
    requires d > 0
  {
    if a >= 0 then a / d else -((-a) / d)
  }

  /** Rust's `%` on `i64`: the remainder of `TruncDiv`, with the sign of `a`. */
  function TruncRem(a: int, d: nat): (r: int)
    requires d > 0
    ensures d * TruncDiv(a, d) + r == a
    ensures a >= 0 ==> 0 <= r < d && TruncDiv(a, d) >= 0
    ensures a < 0 ==> -(d as int) < r <= 0 && TruncDiv(a, d) <= 0
  {
    if a >= 0 then a % d else -((-a) % d)
  }

  /** Splits a millisecond count (the `i64` the duration in seconds is cast
      to) into hours, minutes, seconds and milliseconds; recombining them
      gives the count back, and for a non-negative count each field is in
      its clock range. */
  method SplitDuration(total: int) returns (hh: int, mm: int, ss: int, ms: int)
    ensures hh * 3600000 + mm * 60000 + ss * 1000 + ms == total
    ensures total >= 0 ==> hh >= 0 && 0 <= mm < 60 && 0 <= ss < 60 && 0 <= ms < 1000
    ensures total < 0 ==> hh <= 0 && -60 < mm <= 0 && -60 < ss <= 0 && -1000 < ms <= 0
  {
    var dur := total;
    ms := TruncRem(dur, 1000);
    dur := TruncDiv(dur, 1000);
    ss := TruncRem(dur, 60);
    dur := TruncDiv(dur, 60);
    mm := TruncRem(dur, 60);
    dur := TruncDiv(dur, 60);
    hh := dur;
  }

  /** The end time of the one manual caption cue, `{:0>2}:{:0>2}:{:0>2}.{:0>3}`. */
  function EndTime(hh: nat, mm: nat, ss: nat, ms: nat): string
  {
    PadZero(hh, 2) + ":" + (PadZero(mm, 2) + ":" + (PadZero(ss, 2) + "." + PadZero(ms, 3)))
  }

  /** Reading the end time back as a WebVTT timestamp gives the split
      duration: whole seconds and milliseconds. */
  lemma EndTimeRoundTrip(hh: nat, mm: nat, ss: nat, ms: nat)
    ensures var t := DocVtt.ReadCueTime(EndTime(hh, mm, ss, ms));
      t.Some? && t.value.seconds == hh * 3600 + mm * 60 + ss && t.value.millis == ms
  {
    var h, m, s, f := PadZero(hh, 2), PadZero(mm, 2), PadZero(ss, 2), PadZero(ms, 3);
    DocVtt.DecimalPad(hh, 2);
    DocVtt.DecimalPad(mm, 2);
    DocVtt.DecimalPad(ss, 2);
    DocVtt.DecimalPad(ms, 3);
    DocVtt.JoinClock([h], m, s + "." + f);
    assert [h] + [m, s + "." + f] == [h, m, s + "." + f];
    DocVtt.SplitFields([h], m, s, f);
    DocVtt.ReadThree(h, m, s, f);
  }

  // ---------------------------------------------------------------------
  // YouTube video ids

  /** `is_base64_digit`: an ASCII letter or digit, '_' or '-'. */
  predicate IsBase64Digit(c: char) {
    ('A' <= c <= 'Z') || ('a' <= c <= 'z') || ('0' <= c <= '9') || c == '_' || c == '-'
  }

  /** The parts of a parsed URL that `youtube_video_id` looks at; parsing
      the URL string is not modelled. */
  datatype Url = Url(domain: Option<string>, path: string, query: seq<(string, string)>)

  /** The value of the first query pair named `key`. */
  function QueryValue(query: seq<(string, string)>, key: string): (r: Option<string>)
    ensures r.None? <==> forall j | 0 <= j < |query| :: query[j].0 != key
    ensures r.Some? ==> exists j | 0 <= j < |query| ::
      query[j] == (key, r.value) && forall l | 0 <= l < j :: query[l].0 != key
  {
    if query == [] then None
    else if query[0].0 == key then
      assert query[0] == (key, query[0].1);
      Some(query[0].1)
    else
      var r := QueryValue(query[1..], key);
      assert forall j | 1 <= j < |query| :: query[j] == query[1..][j - 1];
      if r.Some? then
        var j :| 0 <= j < |query[1..]| && query[1..][j] == (key, r.value)
          && forall l | 0 <= l < j :: query[1..][l].0 != key;
        assert query[j + 1] == (key, r.value);
        r
      else r
  }

  /** `youtube_video_id` on a URL that parsed (`None` when it did not). */
  function YoutubeVideoId(url: Option<Url>): Option<string>
  {
    if url.None? || url.value.domain.None? then None
    else if url.value.domain.value == "www.youtube.com" && url.value.path == "/watch" then
      QueryValue(url.value.query, "v")
    else if url.value.domain.value == "youtu.be" then
      var path := url.value.path;
      if |path| >= 1 && path[0] == '/' && forall k | 1 <= k < |path| :: IsBase64Digit(path[k]) then
        Some(path[1..])
      else None
    else None
  }

  /** A `youtu.be` URL names the video `id` exactly when its path is "/"
      followed by `id`, and every char of `id` is a base-64 digit. */
  lemma ShortUrlId(url: Url, id: string)
    requires url.domain == Some("youtu.be")
    ensures YoutubeVideoId(Some(url)) == Some(id) <==>
      url.path == "/" + id && forall k | 0 <= k < |id| :: IsBase64Digit(id[k])
  {
    if url.path == "/" + id {
      assert forall k | 0 <= k < |id| :: url.path[k + 1] == id[k];
      assert url.path[1..] == id;
    }
    if YoutubeVideoId(Some(url)) == Some(id) {
      assert url.path == [url.path[0]] + url.path[1..];
      assert forall k | 0 <= k < |id| :: id[k] == url.path[k + 1];
    }
  }

  /** A watch URL names the value of its first `v` query pair; any other
      host names no video. */
  lemma WatchUrlId(url: Url)
    ensures url.domain == Some("www.youtube.com") && url.path == "/watch" ==>
      YoutubeVideoId(Some(url)) == QueryValue(url.query, "v")
    ensures url.domain.None? || (url.domain.value != "www.youtube.com" && url.domain.value != "youtu.be") ==>
      YoutubeVideoId(Some(url)).None?
  {
  }

  // ---------------------------------------------------------------------
  // The dependency walk in analyze_document

  /** The word trees `find_word_trees_by_text` answers with: every parent
      named by a stored word has an entry too. */
  predicate TreeClosed(dict: Store) {
    forall t, k, p | t in dict && 0 <= k < |dict[t]| && p in dict[t][k].parents :: p in dict
  }

  /** `w` is stored under a text reachable from `text`. */
  ghost predicate FromReachable(dict: Store, text: string, w: Word) {
    exists t | t in dict :: Reachable(dict, [text], t) && w in dict[t]
  }

  /** A parent of a word stored under a reachable text is reachable. */
  lemma ParentReachable(dict: Store, text: string, w: Word, p: string)
    requires FromReachable(dict, text, w) && p in w.parents
    ensures Reachable(dict, [text], p)
  {
    var t :| t in dict && Reachable(dict, [text], t) && w in dict[t];
    var path :| IsChain(dict, [text], path) && path[|path| - 1] == t;
    assert p in ParentTexts(FindWords(dict, t));
    ExtendChain(dict, [text], path, p);
  }

  /** The words of a reachable text are all reachable. */
  lemma WordsReachable(dict: Store, text: string, t: string)
    requires t in dict && Reachable(dict, [text], t)
    ensures forall w | w in dict[t] :: FromReachable(dict, text, w)
  {
  }

  /** What the walk knows between two pops: `deps` starts with the text,
      repeats nothing and holds only reachable texts; the stack holds words
      of reachable texts; every word of a text in `deps` has been handled or
      is on the stack; and every parent of a handled word is in `deps`. */
  ghost predicate Walking(dict: Store, text: string, deps: seq<string>, stack: seq<Word>, done: set<Word>) {
    |deps| >= 1 && deps[0] == text && NoDup(deps)
    && (forall d | d in deps :: d in dict && Reachable(dict, [text], d))
    && (forall w | w in stack :: FromReachable(dict, text, w))
    && (forall d, w | d in deps && w in dict[d] :: w in done || w in stack)
    && (forall w, p | w in done && p in w.parents :: p in deps)
  }

  /** Popping `w` off the stack: `w` and what is left are still words of
      reachable texts, and the words of listed texts are handled, on the
      stack, or `w`. */
  lemma PopFacts(dict: Store, text: string, deps: seq<string>, stack: seq<Word>, w: Word, done: set<Word>)
    requires Walking(dict, text, deps, stack + [w], done)
    ensures FromReachable(dict, text, w)
    ensures forall x | x in stack :: FromReachable(dict, text, x)
    ensures forall d, x | d in deps && x in dict[d] :: x in done || x in stack || x == w
  {
    assert w in stack + [w];
    assert forall x | x in stack :: x in stack + [w];
  }

  lemma WalkStart(dict: Store, text: string)
    requires text in dict
    ensures Walking(dict, text, [text], Reversed(dict[text]), {})
  {
    assert IsChain(dict, [text], [text]);
    WordsReachable(dict, text, text);
    var stack := Reversed(dict[text]);
    forall x | x in dict[text] ensures x in stack {
      var k :| 0 <= k < |dict[text]| && dict[text][k] == x;
      assert stack[|dict[text]| - 1 - k] == x;
    }
    forall x | x in stack ensures FromReachable(dict, text, x) {
      var k :| 0 <= k < |stack| && stack[k] == x;
      assert x == dict[text][|dict[text]| - 1 - k];
    }
  }

  /** With the stack empty, `deps` is closed under parent links, so it holds
      every reachable text. */
  lemma WalkEnd(dict: Store, text: string, deps: seq<string>, done: set<Word>)
    requires Walking(dict, text, deps, [], done)
    ensures forall d :: d in deps <==> Reachable(dict, [text], d)
  {
    forall d | Reachable(dict, [text], d) ensures d in deps {
      var keys := set x | x in deps;
      forall a, p | a in keys && ParentOf(dict, a, p) ensures p in keys {
        var x :| x in FindWords(dict, a) && p in x.parents;
      }
      var path :| IsChain(dict, [text], path) && path[|path| - 1] == d;
      ClosedHoldsReachable(dict, [text], keys, path);
    }
  }

  /** What the parent loop of one popped word `w` knows after `k` parents,
      taken last first: the walk facts with `w` as good as handled, and the
      last `k` parents listed. */
  ghost predicate Visiting(dict: Store, text: string, w: Word, deps: seq<string>, stack: seq<Word>,
                           done: set<Word>, k: nat) {
    k <= |w.parents| && FromReachable(dict, text, w)
    && |deps| >= 1 && deps[0] == text && NoDup(deps)
    && (forall d | d in deps :: d in dict && Reachable(dict, [text], d))
    && (forall x | x in stack :: FromReachable(dict, text, x))
    && (forall d, x | d in deps && x in dict[d] :: x in done || x in stack || x == w)
    && (forall x, p | x in done && p in x.parents :: p in deps)
    && (forall j | |w.parents| - k <= j < |w.parents| :: w.parents[j] in deps)
  }

  /** Listing one more parent (if new) and pushing its words. */
  lemma VisitStep(dict: Store, text: string, w: Word, deps: seq<string>, stack: seq<Word>,
                  done: set<Word>, k: nat, parent: string)
    requires TreeClosed(dict) && Visiting(dict, text, w, deps, stack, done, k)
    requires k < |w.parents| && parent == w.parents[|w.parents| - 1 - k]
    ensures parent in dict
    ensures var deps' := if parent in deps then deps else deps + [parent];
      Visiting(dict, text, w, deps', stack + dict[parent], done, k + 1) && deps <= deps'
  {
    ghost var t :| t in dict && Reachable(dict, [text], t) && w in dict[t];
    ParentReachable(dict, text, w, parent);
    assert parent in dict by {
      var i :| 0 <= i < |dict[t]| && dict[t][i] == w;
    }
    var deps' := if parent in deps then deps else deps + [parent];
    if parent !in deps {
      forall i, j | 0 <= i < j < |deps'| ensures deps'[i] != deps'[j] {
        if j == |deps| {
          assert deps'[i] == deps[i];
        }
      }
    }
    WordsReachable(dict, text, parent);
  }

  /** Handles the parents of one popped word, last parent first: each one not
      yet listed is appended to `deps`, and the words of every parent are
      pushed. */
  method VisitParents(dict: Store, text: string, w: Word, deps: seq<string>, stack: seq<Word>,
                      ghost done: set<Word>)
    returns (deps': seq<string>, stack': seq<Word>)
    requires TreeClosed(dict) && Walking(dict, text, deps, stack + [w], done)
    ensures Walking(dict, text, deps', stack', done + {w})
    ensures deps <= deps'
  {
    PopFacts(dict, text, deps, stack, w, done);
    deps', stack' := deps, stack;
    var ps := w.parents;
    for k := 0 to |ps|
      invariant Visiting(dict, text, w, deps', stack', done, k) && deps <= deps'
    {
      var parent := ps[|ps| - 1 - k];
      VisitStep(dict, text, w, deps', stack', done, k, parent);
      if parent !in deps' {
        deps' := deps' + [parent];
      }
      stack' := stack' + dict[parent];
    }
  }

  /** The `deps` list of `analyze_document`: walks the parent links from the
      segment text with a stack of words, listing each parent text the first
      time it is met. The source loops forever on a cyclic parent relation,
      since it pushes a parent's words even when the parent is listed; the
      model stops with `Exhausted` after `fuel` pops. On success the list
      starts with the text, repeats nothing, and holds exactly the texts
      reachable from it through parent links. */
  method Deps(dict: Store, text: string, fuel: nat) returns (r: Result<seq<string>>)
    requires TreeClosed(dict) && text in dict
    ensures r.Ok? ==> |r.value| >= 1 && r.value[0] == text && NoDup(r.value)
    ensures r.Ok? ==> forall d :: d in r.value <==> Reachable(dict, [text], d)
  {
    var deps := [text];
    var stack := Reversed(dict[text]);
    ghost var done: set<Word> := {};
    WalkStart(dict, text);
    var steps := fuel;
    while stack != []
      invariant Walking(dict, text, deps, stack, done)
      decreases steps
    {
      if steps == 0 {
        return Err(Exhausted);
      }
      ghost var prev := stack;
      var w := stack[|stack| - 1];
      stack := stack[..|stack| - 1];
      assert stack + [w] == prev;
      deps, stack := VisitParents(dict, text, w, deps, stack, done);
      done := done + {w};
      steps := steps - 1;
    }
    WalkEnd(dict, text, deps, done);
    r := Ok(deps);
  }
}
