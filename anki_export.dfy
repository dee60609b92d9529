/** The Anki deck export of src/bin/anki_export.rs: which dictionary words
    become cards, the base-91 GUID of a card, the note built from the senses
    of one text, and the header of a previous export that maps card fronts to
    their GUIDs. The store is the text-to-words map of module Dict and a
    word's status is resolved by `Dict.ResolveStatus`; SHA-256 is given as a
    function from the text to its digest bytes. */
module AnkiExport {
  import opened Common
  import opened Dict

  // ---------------------------------------------------------------------
  // Tags

  /** `sanitize_tag`: spaces become underscores. */
  function SanitizeTag(tag: string): (r: string)
    ensures |r| == |tag| && ' ' !in r
    ensures forall k | 0 <= k < |tag| :: tag[k] == ' ' ==> r[k] == '_'
    ensures forall k | 0 <= k < |tag| :: tag[k] != ' ' ==> r[k] == tag[k]
  {
    ReplaceChar(tag, ' ', '_')
  }

  predicate HasTag(w: Word, tag: string) {
    tag in w.tags
  }

  predicate HasAnyTags(w: Word, tags: seq<string>) {
    exists t | t in w.tags :: t in tags
  }

  // ---------------------------------------------------------------------
  // include_word

  datatype Inclusion = Included | Excluded | StatusClose | StatusTooLow

  /** The learning levels in order, each one step above the previous. */
  const Ladder: seq<WordStatus> := [New, Level2, Level3, Level4, Level5, WellKnown]

  /** `is_status_close`: the status is one step below the minimum. */
  function IsStatusClose(status: WordStatus, minStatus: WordStatus): (r: bool)
    ensures r ==> Lt(status, minStatus)
  {
    match (status, minStatus)
    case (Level5, WellKnown) => true
    case (Level4, Level5) => true
    case (Level3, Level4) => true
    case (Level2, Level3) => true
    case (New, Level2) => true
    case _ => false
  }

  /** Close means one rung below on the ladder of learning levels. */
  lemma IsStatusCloseLadder(status: WordStatus, minStatus: WordStatus)
    ensures IsStatusClose(status, minStatus) <==>
      exists i | 0 <= i < |Ladder| - 1 :: Ladder[i] == status && Ladder[i + 1] == minStatus
  {
    if IsStatusClose(status, minStatus) {
      var i := match status
        case New => 0 case Level2 => 1 case Level3 => 2 case Level4 => 3 case _ => 4;
      assert Ladder[i] == status && Ladder[i + 1] == minStatus;
    }
  }

  /** The parts of the deck configuration that decide inclusion. */
  datatype AnkiConfig = AnkiConfig(
    hiddenTags: seq<string>,
    excludeTags: seq<string>,
    includeTags: seq<string>,
    minStatus: WordStatus,
    minStatusOverride: map<string, WordStatus>)

  /** The exclusions `include_word` applies before it looks up a status: no
      id, no translation, the "noanki" tag, an exclude tag without an include
      tag, or parents none of which is "root" without an include tag. */
  predicate ExcludedEarly(w: Word, cfg: AnkiConfig) {
    w.id.None? || w.translation == [] || HasTag(w, "noanki")
    || (!HasAnyTags(w, cfg.includeTags) && HasAnyTags(w, cfg.excludeTags))
    || (!HasAnyTags(w, cfg.includeTags) && w.parents != [] && "root" !in w.parents)
  }

  /** The minimum status after the word's first `|tags|` tags lowered it. */
  function LoweredMin(m: WordStatus, ovr: map<string, WordStatus>, tags: seq<string>): WordStatus {
    if tags == [] then m
    else
      var cur := LoweredMin(m, ovr, tags[..|tags| - 1]);
      var t := tags[|tags| - 1];
      if t in ovr && Lt(ovr[t], cur) then ovr[t] else cur
  }

  /** The overrides only lower the minimum: the result is the least of the
      configured minimum and the overrides of the word's tags. */
  lemma {:induction false} LoweredMinSpec(m: WordStatus, ovr: map<string, WordStatus>, tags: seq<string>)
    ensures Le(LoweredMin(m, ovr, tags), m)
    ensures forall i | 0 <= i < |tags| && tags[i] in ovr :: Le(LoweredMin(m, ovr, tags), ovr[tags[i]])
    ensures LoweredMin(m, ovr, tags) == m
            || exists i | 0 <= i < |tags| :: tags[i] in ovr && LoweredMin(m, ovr, tags) == ovr[tags[i]]
  {
    if tags != [] {
      var init := tags[..|tags| - 1];
      LoweredMinSpec(m, ovr, init);
      assert forall i | 0 <= i < |init| :: init[i] == tags[i];
      var r := LoweredMin(m, ovr, tags);
      if r != LoweredMin(m, ovr, init) {
        assert tags[|tags| - 1] in ovr && r == ovr[tags[|tags| - 1]];
      } else if r != m {
        var i :| 0 <= i < |init| && init[i] in ovr && LoweredMin(m, ovr, init) == ovr[init[i]];
        assert tags[i] in ovr && r == ovr[tags[i]];
      }
    }
  }

  /** The verdict on a resolved status against the effective minimum. */
  function Classify(status: WordStatus, minStatus: WordStatus): (r: Inclusion)
    ensures r == Excluded <==> status == Ignored
    ensures r == Included <==> status != Ignored && Le(minStatus, status)
    ensures r == StatusClose <==> status != Ignored && IsStatusClose(status, minStatus)
  {
    if status == Ignored then Excluded
    else if Lt(status, minStatus) then
      if IsStatusClose(status, minStatus) then StatusClose else StatusTooLow
    else Included
  }

  /** What `include_word` answers for `w`; `fuel` bounds the status
      resolution. */
  function Decide(w: Word, cfg: AnkiConfig, store: Store, fuel: nat): Result<Inclusion> {
    if ExcludedEarly(w, cfg) then Ok(Excluded)
    else match ResolveStatus(store, w, StoredStatus, fuel)
      case Err(e) => Err(e)
      case Ok((_, status)) =>
        Ok(Classify(status, LoweredMin(cfg.minStatus, cfg.minStatusOverride, w.tags)))
  }

  /** A word is included exactly when no early exclusion applies, its status
      resolves to an optimistic status other than Ignored, and that status is
      at least the configured minimum or the override of one of its tags. */
  lemma IncludedSpec(w: Word, cfg: AnkiConfig, store: Store, fuel: nat)
    ensures Decide(w, cfg, store, fuel) == Ok(Included) <==>
      !ExcludedEarly(w, cfg)
      && var res := ResolveStatus(store, w, StoredStatus, fuel);
      res.Ok? && res.value.1 != Ignored
      && (Le(cfg.minStatus, res.value.1)
          || exists i | 0 <= i < |w.tags| :: w.tags[i] in cfg.minStatusOverride
                                            && Le(cfg.minStatusOverride[w.tags[i]], res.value.1))
  {
    LoweredMinSpec(cfg.minStatus, cfg.minStatusOverride, w.tags);
  }

  /** `include_word`: the early exclusions, then the status lookup (an error
      is passed on), then the minimum lowered by the word's tags. */
  method IncludeWord(w: Word, cfg: AnkiConfig, store: Store, fuel: nat) returns (r: Result<Inclusion>)
    ensures r == Decide(w, cfg, store, fuel)
  {
    if w.id.None? {
      return Ok(Excluded);
    }
    if w.translation == [] {
      return Ok(Excluded);
    }
    if HasTag(w, "noanki") {
      return Ok(Excluded);
    }
    var hasInclude := HasAnyTags(w, cfg.includeTags);
    var hasExclude := HasAnyTags(w, cfg.excludeTags);
    if !hasInclude && hasExclude {
      return Ok(Excluded);
    }
    if !hasInclude && w.parents != [] && "root" !in w.parents {
      return Ok(Excluded);
    }
    var resolved := ResolveStatus(store, w, StoredStatus, fuel);
    if resolved.Err? {
      return Err(resolved.error);
    }
    var status := resolved.value.1;
    if status == Ignored {
      return Ok(Excluded);
    }
    var minStatus := cfg.minStatus;
    for k := 0 to |w.tags|
      invariant minStatus == LoweredMin(cfg.minStatus, cfg.minStatusOverride, w.tags[..k])
    {
      assert w.tags[..k + 1][..k] == w.tags[..k];
      var tag := w.tags[k];
      if tag in cfg.minStatusOverride {
        var ovr := cfg.minStatusOverride[tag];
        if Lt(ovr, minStatus) {
          minStatus := ovr;
        }
      }
    }
    assert w.tags[..|w.tags|] == w.tags;
    if Lt(status, minStatus) {
      if IsStatusClose(status, minStatus) {
        return Ok(StatusClose);
      }
      return Ok(StatusTooLow);
    }
    return Ok(Included);
  }

  // ---------------------------------------------------------------------
  // guid_for

  /** `BASE91_TABLE[d]`: a-z, A-Z, 0-9, then the 29 ASCII punctuation
      characters other than `"`, `'` and `\`, in ASCII order. */
  function Digit91(d: nat): (c: char)
    requires d < 91
  {
    if d < 26 then ('a' as int + d) as char
    else if d < 52 then ('A' as int + (d - 26)) as char
    else if d < 62 then ('0' as int + (d - 52)) as char
    else if d == 62 then '!'
    else if d < 67 then ('#' as int + (d - 63)) as char
    else if d < 75 then ('(' as int + (d - 67)) as char
    else if d < 82 then (':' as int + (d - 75)) as char
    else if d == 82 then '['
    else if d < 87 then (']' as int + (d - 83)) as char
    else ('{' as int + (d - 87)) as char
  }

  /** The position of `c` in the table (0 for a char outside it). */
  function Value91(c: char): (d: nat)
    ensures d < 91
  {
    if 'a' <= c <= 'z' then c as int - 'a' as int
    else if 'A' <= c <= 'Z' then 26 + (c as int - 'A' as int)
    else if '0' <= c <= '9' then 52 + (c as int - '0' as int)
    else if c == '!' then 62
    else if '#' <= c <= '&' then 63 + (c as int - '#' as int)
    else if '(' <= c <= '/' then 67 + (c as int - '(' as int)
    else if ':' <= c <= '@' then 75 + (c as int - ':' as int)
    else if c == '[' then 82
    else if ']' <= c <= '`' then 83 + (c as int - ']' as int)
    else if '{' <= c <= '~' then 87 + (c as int - '{' as int)
    else 0
  }

  /** Reading a table char back gives its position, so the table has no
      repeated char. */
  lemma Value91Digit(d: nat)
    requires d < 91
    ensures Value91(Digit91(d)) == d
  {
  }

  predicate InTable(c: char) {
    exists d | 0 <= d < 91 :: Digit91(d) == c
  }

  /** The base-91 digits of `n`, most significant first, none for 0. */
  function Base91(n: nat): (r: string)
    ensures forall k | 0 <= k < |r| :: InTable(r[k])
  {
    if n == 0 then [] else Base91(n / 91) + [Digit91(n % 91)]
  }

  /** Reads base-91 digits, most significant first. */
  function Read91(s: string): nat {
    if s == [] then 0 else Read91(s[..|s| - 1]) * 91 + Value91(s[|s| - 1])
  }

  /** Reading the digits back gives the number, and a non-zero number has
      no leading zero digit. */
  lemma {:induction false} Base91RoundTrip(n: nat)
    ensures Read91(Base91(n)) == n
    ensures n > 0 ==> |Base91(n)| > 0 && Base91(n)[0] != Digit91(0)
  {
    if n > 0 {
      Base91RoundTrip(n / 91);
      var s := Base91(n);
      assert s[..|s| - 1] == Base91(n / 91);
      Value91Digit(n % 91);
      if n / 91 == 0 {
        Value91Digit(0);
      }
    }
  }

  /** The big-endian value of a byte string. */
  function BigEndian(bytes: seq<nat>): nat {
    if bytes == [] then 0 else BigEndian(bytes[..|bytes| - 1]) * 256 + bytes[|bytes| - 1]
  }

  function Pow256(k: nat): nat {
    if k == 0 then 1 else 256 * Pow256(k - 1)
  }

  /** The SHA-256 digest has 32 bytes. */
  predicate ValidDigest(digest: seq<nat>) {
    |digest| == 32 && forall k | 0 <= k < |digest| :: digest[k] < 256
  }

  lemma BigEndianBound(bytes: seq<nat>)
    requires forall k | 0 <= k < |bytes| :: bytes[k] < 256
    ensures BigEndian(bytes) < Pow256(|bytes|)
  {
    if bytes != [] {
      var init := bytes[..|bytes| - 1];
      BigEndianBound(init);
      var b := bytes[|bytes| - 1];
      assert BigEndian(bytes) == BigEndian(init) * 256 + b;
      assert BigEndian(init) * 256 + b < (BigEndian(init) + 1) * 256;
    }
  }

  /** `guid_for`: the first eight digest bytes read as a big-endian number
      (they fill the 64-bit `usize` exactly, so the shifts drop no bits),
      written in base 91 with the most significant digit first. */
  method GuidFor(digest: seq<nat>) returns (r: string)
    requires ValidDigest(digest)
    ensures r == Base91(BigEndian(digest[..8]))
    ensures BigEndian(digest[..8]) < 0x1_0000_0000_0000_0000
  {
    var hash := 0;
    for k := 0 to 8
      invariant hash == BigEndian(digest[..k])
    {
      assert digest[..k + 1][..k] == digest[..k];
      hash := hash * 256 + digest[k];
    }
    BigEndianBound(digest[..8]);
    var rv: string := [];
    var h := hash;
    while h > 0
      invariant Base91(h) + Reversed(rv) == Base91(hash)
    {
      assert Reversed(rv + [Digit91(h % 91)]) == [Digit91(h % 91)] + Reversed(rv);
      rv := rv + [Digit91(h % 91)];
      h := h / 91;
    }
    r := Reversed(rv);
  }

  // ---------------------------------------------------------------------
  // words_to_note

  /** A card: the shared text, the shared pronunciation, its senses
      (included ones first), the GUID and the note tags. The rendered
      translation, images and fields are not part of the model. */
  datatype Note = Note(text: string, pronunciation: string, words: seq<Word>, guid: string, tags: seq<string>)

  predicate DecidedIn(w: Word, cfg: AnkiConfig, store: Store, fuel: nat, kinds: set<Inclusion>) {
    var d := Decide(w, cfg, store, fuel);
    d.Ok? && d.value in kinds
  }

  /** The words whose verdict is one of `kinds`, in order. */
  function Picked(ws: seq<Word>, cfg: AnkiConfig, store: Store, fuel: nat, kinds: set<Inclusion>): (r: seq<Word>)
    ensures forall w | w in r :: w in ws
  {
    if ws == [] then []
    else
      var init := Picked(ws[..|ws| - 1], cfg, store, fuel, kinds);
      if DecidedIn(ws[|ws| - 1], cfg, store, fuel, kinds) then init + [ws[|ws| - 1]] else init
  }

  /** The picked words are exactly the input words with one of the verdicts. */
  lemma {:induction false} PickedExactly(ws: seq<Word>, cfg: AnkiConfig, store: Store, fuel: nat, kinds: set<Inclusion>)
    ensures forall w | w in Picked(ws, cfg, store, fuel, kinds) :: w in ws && DecidedIn(w, cfg, store, fuel, kinds)
    ensures forall i | 0 <= i < |ws| && DecidedIn(ws[i], cfg, store, fuel, kinds) :: ws[i] in Picked(ws, cfg, store, fuel, kinds)
    ensures |Picked(ws, cfg, store, fuel, kinds)| <= |ws|
  {
    if ws != [] {
      var init := ws[..|ws| - 1];
      PickedExactly(init, cfg, store, fuel, kinds);
      assert forall i | 0 <= i < |init| :: init[i] == ws[i];
    }
  }

  lemma PickedPush(ws: seq<Word>, cfg: AnkiConfig, store: Store, fuel: nat, kinds: set<Inclusion>, k: nat)
    requires k < |ws|
    ensures Picked(ws[..k + 1], cfg, store, fuel, kinds)
            == Picked(ws[..k], cfg, store, fuel, kinds)
               + (if DecidedIn(ws[k], cfg, store, fuel, kinds) then [ws[k]] else [])
  {
    assert ws[..k + 1][..k] == ws[..k];
  }

  /** Every verdict is known (no resolution failed). */
  predicate AllDecided(ws: seq<Word>, cfg: AnkiConfig, store: Store, fuel: nat) {
    forall i | 0 <= i < |ws| :: Decide(ws[i], cfg, store, fuel).Ok?
  }

  /** The sorting loop of `words_to_note`: included words, the words whose
      status is too low or close (the extra senses), and the close ones. */
  method SortWords(ws: seq<Word>, cfg: AnkiConfig, store: Store, fuel: nat)
    returns (r: Result<(seq<Word>, seq<Word>, seq<Word>)>)
    ensures r.Ok? <==> AllDecided(ws, cfg, store, fuel)
    ensures r.Ok? ==> r.value == (Picked(ws, cfg, store, fuel, {Included}),
                                  Picked(ws, cfg, store, fuel, {StatusTooLow, StatusClose}),
                                  Picked(ws, cfg, store, fuel, {StatusClose}))
  {
    var included, extra, close := [], [], [];
    for k := 0 to |ws|
      invariant AllDecided(ws[..k], cfg, store, fuel)
      invariant included == Picked(ws[..k], cfg, store, fuel, {Included})
      invariant extra == Picked(ws[..k], cfg, store, fuel, {StatusTooLow, StatusClose})
      invariant close == Picked(ws[..k], cfg, store, fuel, {StatusClose})
    {
      assert ws[..k + 1][..k] == ws[..k];
      var d := IncludeWord(ws[k], cfg, store, fuel);
      if d.Err? {
        assert !AllDecided(ws, cfg, store, fuel);
        return Err(d.error);
      }
      PickedPush(ws, cfg, store, fuel, {Included}, k);
      PickedPush(ws, cfg, store, fuel, {StatusTooLow, StatusClose}, k);
      PickedPush(ws, cfg, store, fuel, {StatusClose}, k);
      match d.value {
        case Included => included := included + [ws[k]];
        case StatusTooLow => extra := extra + [ws[k]];
        case StatusClose =>
          close := close + [ws[k]];
          extra := extra + [ws[k]];
        case Excluded =>
      }
    }
    assert ws[..|ws|] == ws;
    r := Ok((included, extra, close));
  }

  /** `all_equal_value` on the texts of a non-empty list: the shared text,
      or an error naming the first text and the first one that differs. */
  method SharedText(ws: seq<Word>) returns (r: Result<string>)
    requires ws != []
    ensures r.Ok? <==> forall i | 0 <= i < |ws| :: ws[i].text == ws[0].text
    ensures r.Ok? ==> r.value == ws[0].text
  {
    for k := 1 to |ws|
      invariant forall i | 0 <= i < k :: ws[i].text == ws[0].text
    {
      if ws[k].text != ws[0].text {
        return Err(AppError("words have mismatched texts: " + ws[0].text + ", " + ws[k].text));
      }
    }
    r := Ok(ws[0].text);
  }

  /** The pronunciation shared by all senses, or "" when they differ or none
      is given. */
  function SharedPronunciation(ws: seq<Word>): (r: string)
    requires ws != []
    ensures ((forall i | 0 <= i < |ws| :: ws[i].pronunciation == ws[0].pronunciation)
             && ws[0].pronunciation.Some?) ==> r == ws[0].pronunciation.value
    ensures (exists i | 0 <= i < |ws| :: ws[i].pronunciation != ws[0].pronunciation) ==> r == []
    ensures (forall i | 0 <= i < |ws| :: ws[i].pronunciation.None?) ==> r == []
  {
    if (forall i | 0 <= i < |ws| :: ws[i].pronunciation == ws[0].pronunciation)
       && ws[0].pronunciation.Some?
    then ws[0].pronunciation.value
    else []
  }

  /** The elements of `a` that are in `b`, in the order of `a`. */
  function KeepIn(a: seq<string>, b: seq<string>): (r: seq<string>)
    ensures forall t :: t in r <==> t in a && t in b
  {
    if a == [] then []
    else (if a[0] in b then [a[0]] else []) + KeepIn(a[1..], b)
  }

  /** The elements of `a` that are not in `b`, in the order of `a`. */
  function DropIn(a: seq<string>, b: seq<string>): (r: seq<string>)
    ensures forall t :: t in r <==> t in a && t !in b
  {
    if a == [] then []
    else (if a[0] !in b then [a[0]] else []) + DropIn(a[1..], b)
  }

  /** The `reduce` over the senses' tags: those the first sense has that
      every later sense also has. */
  function CommonTags(ws: seq<Word>): seq<string>
    requires ws != []
  {
    if |ws| == 1 then ws[0].tags else KeepIn(CommonTags(ws[..|ws| - 1]), ws[|ws| - 1].tags)
  }

  lemma {:induction false} CommonTagsSpec(ws: seq<Word>)
    requires ws != []
    ensures forall t :: t in CommonTags(ws) <==> forall i | 0 <= i < |ws| :: t in ws[i].tags
  {
    if |ws| > 1 {
      var init := ws[..|ws| - 1];
      CommonTagsSpec(init);
      assert forall i | 0 <= i < |init| :: init[i] == ws[i];
    }
  }

  /** Rust's `str` order: lexicographic by code point. */
  predicate Below(a: string, b: string) {
    if a == [] then b != []
    else b != [] && (a[0] < b[0] || (a[0] == b[0] && Below(a[1..], b[1..])))
  }

  lemma {:induction false} BelowTransitive(a: string, b: string, c: string)
    requires Below(a, b) && Below(b, c)
    ensures Below(a, c)
  {
    if a != [] && a[0] == b[0] == c[0] {
      BelowTransitive(a[1..], b[1..], c[1..]);
    }
  }

  lemma {:induction false} BelowTotal(a: string, b: string)
    ensures a == b || Below(a, b) || Below(b, a)
  {
    if a != [] && b != [] && a[0] == b[0] {
      BelowTotal(a[1..], b[1..]);
      if a[1..] == b[1..] {
        assert a == [a[0]] + a[1..] && b == [b[0]] + b[1..];
      }
    }
  }

  lemma {:induction false} BelowIrreflexive(a: string)
    ensures !Below(a, a)
  {
    if a != [] {
      BelowIrreflexive(a[1..]);
    }
  }

  predicate StrictlySorted(s: seq<string>) {
    forall i, j | 0 <= i < j < |s| :: Below(s[i], s[j])
  }

  /** Adds `x` to a strictly sorted list unless it is there already. */
  function InsertSorted(x: string, s: seq<string>): (r: seq<string>)
    requires StrictlySorted(s)
    ensures StrictlySorted(r)
    ensures forall t :: t in r <==> t == x || t in s
  {
    if s == [] then [x]
    else if x == s[0] then s
    else if Below(x, s[0]) then
      assert forall j | 0 <= j < |s| :: Below(x, s[j]) by {
        forall j | 0 < j < |s| ensures Below(x, s[j]) {
          BelowTransitive(x, s[0], s[j]);
        }
      }
      [x] + s
    else
      BelowTotal(x, s[0]);
      var rest := InsertSorted(x, s[1..]);
      assert forall t | t in rest :: Below(s[0], t) by {
        forall t | t in rest ensures Below(s[0], t) {
          if t != x {
            var j :| 0 <= j < |s[1..]| && s[1..][j] == t;
            assert s[j + 1] == t;
          }
        }
      }
      assert s == [s[0]] + s[1..];
      [s[0]] + rest
  }

  /** `sort` followed by `dedup`: the distinct elements in increasing order. */
  function SortDedup(s: seq<string>): (r: seq<string>)
    ensures StrictlySorted(r)
    ensures forall t :: t in r <==> t in s
  {
    if s == [] then [] else InsertSorted(s[|s| - 1], SortDedup(s[..|s| - 1]))
  }

  /** A strictly sorted list is determined by its elements. */
  /** The head of a strictly sorted list is not above any element of a
      list with the same elements. */
  lemma HeadLeast(a: seq<string>, b: seq<string>)
    requires StrictlySorted(a) && StrictlySorted(b) && a != [] && b != []
    requires forall t :: t in a <==> t in b
    ensures !Below(b[0], a[0])
  {
    if Below(b[0], a[0]) {
      assert b[0] in b;
      var k :| 0 <= k < |a| && a[k] == b[0];
      if k == 0 {
        BelowIrreflexive(a[0]);
      } else {
        BelowTransitive(a[0], b[0], a[0]);
        BelowIrreflexive(a[0]);
      }
    }
  }

  /** Nothing is in one list and not the other, so both are empty or both
      are not. */
  lemma EmptyTogether(a: seq<string>, b: seq<string>)
    requires forall t :: t in a <==> t in b
    ensures a == [] <==> b == []
  {
    if a != [] {
      assert a[0] in a;
    }
    if b != [] {
      assert b[0] in b;
    }
  }

  /** A strictly sorted list is determined by its elements. */
  lemma {:induction false} StrictlySortedUnique(a: seq<string>, b: seq<string>)
    requires StrictlySorted(a) && StrictlySorted(b)
    requires forall t :: t in a <==> t in b
    ensures a == b
  {
    EmptyTogether(a, b);
    if a != [] {
      HeadLeast(a, b);
      HeadLeast(b, a);
      BelowTotal(a[0], b[0]);
      forall t ensures t in a[1..] <==> t in b[1..] {
        if t in a[1..] {
          var j :| 0 <= j < |a[1..]| && a[1..][j] == t;
          assert a[j + 1] == t && Below(a[0], t);
          BelowIrreflexive(t);
          assert t in b;
          var k :| 0 <= k < |b| && b[k] == t;
          assert k > 0 && b[1..][k - 1] == t;
        }
        if t in b[1..] {
          var j :| 0 <= j < |b[1..]| && b[1..][j] == t;
          assert b[j + 1] == t && Below(b[0], t);
          BelowIrreflexive(t);
          assert t in a;
          var k :| 0 <= k < |a| && a[k] == t;
          assert k > 0 && a[1..][k - 1] == t;
        }
      }
      StrictlySortedUnique(a[1..], b[1..]);
      assert a == [a[0]] + a[1..] && b == [b[0]] + b[1..];
    }
  }

  function MapSanitize(s: seq<string>): (r: seq<string>)
    ensures forall t :: t in r <==> exists u | u in s :: SanitizeTag(u) == t
  {
    if s == [] then [] else [SanitizeTag(s[0])] + MapSanitize(s[1..])
  }

  /** The note's tags: the tags every sense carries, without the hidden
      ones, sanitised, sorted and deduplicated. */
  function NoteTags(ws: seq<Word>, hidden: seq<string>): (r: seq<string>)
    requires ws != []
    ensures StrictlySorted(r)
    ensures forall t :: t in r <==>
      exists u :: SanitizeTag(u) == t && u !in hidden && forall i | 0 <= i < |ws| :: u in ws[i].tags
  {
    CommonTagsSpec(ws);
    SortDedup(MapSanitize(DropIn(CommonTags(ws), hidden)))
  }

  /** `words_to_note` on the senses of one text. Without an included sense
      there is no note, and the close senses are reported; otherwise the
      note holds the included senses followed by the too-low and close ones,
      all with the same text (else an error), and its GUID is the one of
      the previous export or `guid_for` of the text. */
  method WordsToNote(ws: seq<Word>, cfg: AnkiConfig, store: Store, fuel: nat,
                     guids: map<string, string>, sha256: string -> seq<nat>)
    returns (r: Result<Option<Note>>, close: seq<Word>)
    requires forall t :: |sha256(t)| == 32 && forall k | 0 <= k < 32 :: sha256(t)[k] < 256
    ensures r.Ok? ==> AllDecided(ws, cfg, store, fuel)
    ensures r == Ok(None) <==>
      AllDecided(ws, cfg, store, fuel) && Picked(ws, cfg, store, fuel, {Included}) == []
    ensures close == if r == Ok(None) then Picked(ws, cfg, store, fuel, {StatusClose}) else []
    ensures r.Ok? && r.value.Some? ==>
      var note := r.value.value;
      note.words == Picked(ws, cfg, store, fuel, {Included})
                    + Picked(ws, cfg, store, fuel, {StatusTooLow, StatusClose})
      && note.words != []
      && (forall w | w in note.words :: w.text == note.text)
      && note.pronunciation == SharedPronunciation(note.words)
      && note.tags == NoteTags(note.words, cfg.hiddenTags)
      && note.guid == if note.text in guids then guids[note.text]
                      else Base91(BigEndian(sha256(note.text)[..8]))
    ensures r.Err? && AllDecided(ws, cfg, store, fuel) ==>
      var all := Picked(ws, cfg, store, fuel, {Included})
                 + Picked(ws, cfg, store, fuel, {StatusTooLow, StatusClose});
      exists i, j | 0 <= i < |all| && 0 <= j < |all| :: all[i].text != all[j].text
  {
    close := [];
    var sorted := SortWords(ws, cfg, store, fuel);
    if sorted.Err? {
      return Err(sorted.error), [];
    }
    var (included, extra, closeWords) := sorted.value;
    if included == [] {
      return Ok(None), closeWords;
    }
    var all := included + extra;
    var text := SharedText(all);
    if text.Err? {
      return Err(text.error), [];
    }
    assert forall w | w in all :: w.text == text.value;
    var guid;
    if text.value in guids {
      guid := guids[text.value];
    } else {
      guid := GuidFor(sha256(text.value));
    }
    var note := Note(text.value, SharedPronunciation(all), all, guid, NoteTags(all, cfg.hiddenTags));
    r := Ok(Some(note));
  }

  // ---------------------------------------------------------------------
  // read_guids

  predicate IsDigit(c: char) { '0' <= c <= '9' }

  function DecimalValue(s: string): nat
    requires forall k | 0 <= k < |s| :: IsDigit(s[k])
  {
    if s == [] then 0
    else
      assert IsDigit(s[|s| - 1]);
      DecimalValue(s[..|s| - 1]) * 10 + (s[|s| - 1] as int - '0' as int)
  }

  /** `str::parse::<usize>()`: an optional '+', then at least one decimal
      digit, with a value below 2^64. */
  function ParseUsize(s: string): (r: Option<nat>)
    ensures r.Some? ==> r.value < 0x1_0000_0000_0000_0000
  {
    var d := if |s| > 0 && s[0] == '+' then s[1..] else s;
    if d == [] || exists k | 0 <= k < |d| :: !IsDigit(d[k]) then None
    else
      var v := DecimalValue(d);
      if v < 0x1_0000_0000_0000_0000 then Some(v) else None
  }

  lemma {:induction false} DecimalOfNat(n: nat)
    ensures forall k | 0 <= k < |NatToString(n)| :: IsDigit(NatToString(n)[k])
    ensures DecimalValue(NatToString(n)) == n
  {
    if n >= 10 {
      DecimalOfNat(n / 10);
      var s := NatToString(n);
      assert s[..|s| - 1] == NatToString(n / 10);
    }
  }

  /** Parsing a printed number gives it back. */
  lemma ParseUsizeOfNat(n: nat)
    requires n < 0x1_0000_0000_0000_0000
    ensures ParseUsize(NatToString(n)) == Some(n)
  {
    DecimalOfNat(n);
  }

  function LowerAscii(s: string): (r: string)
    ensures |r| == |s|
  {
    if s == [] then []
    else [if 'A' <= s[0] <= 'Z' then (s[0] as int + 32) as char else s[0]] + LowerAscii(s[1..])
  }

  datatype Header = Header(guidColumn: Option<nat>, columns: seq<nat>)

  predicate IsComment(line: string) { |line| > 0 && line[0] == '#' }

  /** The column a header comment names, as a 0-based index, if it is a
      "... column" entry; a value that is not a number, or is 0, is an
      error. */
  function HeaderEntry(comment: string): Result<Option<(string, nat)>> {
    match SplitOnce(comment, ':')
    case None => Ok(None)
    case Some((k, v)) => ColumnEntry(LowerAscii(Trim(k)), v)
  }

  /** The entry for lower-cased key `key` and raw value `v`. */
  function ColumnEntry(key: string, v: string): Result<Option<(string, nat)>> {
    if !EndsWith(key, " column") then Ok(None)
    else match ParseUsize(Trim(v))
      case None => Err(AppError("invalid column number"))
      case Some(c) =>
        if c == 0 then Err(AppError("invalid " + key + ": " + v)) else Ok(Some((key, c - 1)))
  }

  /** The header after the comment lines `lines` (oldest first). */
  function HeaderOf(lines: seq<string>): Result<Header>
    requires forall k | 0 <= k < |lines| :: IsComment(lines[k])
  {
    if lines == [] then Ok(Header(None, []))
    else
      var h :- HeaderOf(lines[..|lines| - 1]);
      var last := lines[|lines| - 1];
      assert IsComment(last);
      var e :- HeaderEntry(last[1..]);
      match e
      case None => Ok(h)
      case Some((key, c)) =>
        Ok(Header(if key == "guid column" then Some(c) else h.guidColumn, h.columns + [c]))
  }

  /** The number of leading comment lines. */
  function CommentLines(lines: seq<string>): (n: nat)
    ensures n <= |lines| && (forall k | 0 <= k < n :: IsComment(lines[k]))
    ensures n < |lines| ==> !IsComment(lines[n])
  {
    if lines == [] || !IsComment(lines[0]) then 0 else 1 + CommentLines(lines[1..])
  }

  lemma {:induction false} CommentLinesAt(lines: seq<string>, n: nat)
    requires n <= |lines| && (forall k | 0 <= k < n :: IsComment(lines[k]))
    requires n < |lines| ==> !IsComment(lines[n])
    ensures CommentLines(lines) == n
  {
    if n > 0 {
      CommentLinesAt(lines[1..], n - 1);
    }
  }

  /** One more comment line. */
  lemma HeaderStep(lines: seq<string>, k: nat)
    requires k < |lines| && forall i | 0 <= i <= k :: IsComment(lines[i])
    ensures var prefix := lines[..k + 1];
      prefix[..k] == lines[..k] && prefix[k] == lines[k]
      && forall i | 0 <= i < |prefix| :: IsComment(prefix[i])
  {
  }

  /** An error in a comment line is the error of the whole header. */
  lemma {:induction false} HeaderErrorSticks(lines: seq<string>, k: nat, n: nat)
    requires k <= n <= |lines| && forall i | 0 <= i < n :: IsComment(lines[i])
    requires HeaderOf(lines[..k]).Err?
    ensures HeaderOf(lines[..n]) == HeaderOf(lines[..k])
  {
    if n > k {
      HeaderErrorSticks(lines, k, n - 1);
      assert lines[..n][..n - 1] == lines[..n - 1];
    }
  }

  /** The header loop of `read_guids`: reads the leading comment lines and
      collects the columns their "... column" entries name. Every guid column
      found is one of the columns. */
  method ReadHeader(lines: seq<string>) returns (r: Result<Header>)
    ensures r == HeaderOf(lines[..CommentLines(lines)])
    ensures r.Ok? && r.value.guidColumn.Some? ==> r.value.guidColumn.value in r.value.columns
  {
    var guid: Option<nat> := None;
    var columns: seq<nat> := [];
    var k := 0;
    while k < |lines| && IsComment(lines[k])
      invariant k <= |lines| && forall i | 0 <= i < k :: IsComment(lines[i])
      invariant HeaderOf(lines[..k]) == Ok(Header(guid, columns))
      invariant guid.Some? ==> guid.value in columns
    {
      HeaderStep(lines, k);
      var entry := HeaderEntry(lines[k][1..]);
      if entry.Err? {
        assert HeaderOf(lines[..k + 1]) == Err(entry.error);
        HeaderErrorSticks(lines, k + 1, CommentLines(lines));
        return Err(entry.error);
      }
      match entry.value {
        case None =>
        case Some((key, c)) =>
          if key == "guid column" {
            guid := Some(c);
          }
          columns := columns + [c];
      }
      k := k + 1;
    }
    CommentLinesAt(lines, k);
    r := Ok(Header(guid, columns));
  }

  /** `f` is the smallest index not named by any column. */
  predicate FrontOf(columns: seq<nat>, f: nat) {
    f !in columns && forall j | 0 <= j < f :: j in columns
  }

  function MaxColumn(columns: seq<nat>): (m: nat)
    ensures forall c | c in columns :: c <= m
  {
    if columns == [] then 0
    else
      var m := MaxColumn(columns[1..]);
      assert forall c | c in columns :: c == columns[0] || c in columns[1..];
      if columns[0] > m then columns[0] else m
  }

  /** `(0..).find(|i| !columns.contains(i))`. */
  method FrontColumn(columns: seq<nat>) returns (f: nat)
    ensures FrontOf(columns, f)
  {
    f := 0;
    while f in columns
      invariant forall j | 0 <= j < f :: j in columns
      decreases MaxColumn(columns) + 1 - f
    {
      f := f + 1;
    }
  }

  /** `record` has both columns. */
  predicate HasBoth(record: seq<string>, front: nat, guid: nat) {
    front < |record| && guid < |record|
  }

  /** `m` maps each front text to the GUID of the last record with that
      front, over the records holding both columns. */
  ghost predicate GuidTable(records: seq<seq<string>>, front: nat, guid: nat, m: map<string, string>) {
    (forall i | 0 <= i < |records| && HasBoth(records[i], front, guid) :: records[i][front] in m)
    && forall t | t in m :: exists i | 0 <= i < |records| ::
         HasBoth(records[i], front, guid) && records[i][front] == t && m[t] == records[i][guid]
         && forall j | i < j < |records| && HasBoth(records[j], front, guid) :: records[j][front] != t
  }

  /** The record loop of `read_guids`: skips a record missing either column,
      otherwise maps its front to its GUID, a later record replacing an
      earlier one. */
  method CollectGuids(records: seq<seq<string>>, front: nat, guid: nat) returns (m: map<string, string>)
    ensures GuidTable(records, front, guid, m)
  {
    m := map[];
    for k := 0 to |records|
      invariant GuidTable(records[..k], front, guid, m)
    {
      var rec := records[k];
      var prefix := records[..k + 1];
      assert forall i | 0 <= i < k :: prefix[i] == records[..k][i];
      if HasBoth(rec, front, guid) {
        var m' := m[rec[front] := rec[guid]];
        forall t | t in m'
          ensures exists i | 0 <= i < k + 1 ::
            HasBoth(prefix[i], front, guid) && prefix[i][front] == t && m'[t] == prefix[i][guid]
            && forall j | i < j < k + 1 && HasBoth(prefix[j], front, guid) :: prefix[j][front] != t
        {
          if t == rec[front] {
            assert prefix[k] == rec;
          } else {
            var i :| 0 <= i < k && HasBoth(records[..k][i], front, guid) && records[..k][i][front] == t
              && m[t] == records[..k][i][guid]
              && forall j | i < j < k && HasBoth(records[..k][j], front, guid) :: records[..k][j][front] != t;
            assert prefix[k] == rec;
          }
        }
        m := m';
      } else {
        assert prefix[k] == rec;
      }
    }
    assert records[..|records|] == records;
  }

  /** `read_guids` on the lines of a previous export and the records its
      CSV reader yields: without a guid column the table is empty; otherwise
      each front (the first column no header names) maps to the GUID of the
      last record that has both columns. */
  method ReadGuids(lines: seq<string>, records: seq<seq<string>>) returns (r: Result<map<string, string>>)
    ensures r.Err? <==> HeaderOf(lines[..CommentLines(lines)]).Err?
    ensures r.Ok? ==>
      var h := HeaderOf(lines[..CommentLines(lines)]).value;
      if h.guidColumn.None? then r.value == map[]
      else exists f :: FrontOf(h.columns, f) && GuidTable(records, f, h.guidColumn.value, r.value)
  {
    var header := ReadHeader(lines);
    if header.Err? {
      return Err(header.error);
    }
    if header.value.guidColumn.None? {
      return Ok(map[]);
    }
    var front := FrontColumn(header.value.columns);
    var m := CollectGuids(records, front, header.value.guidColumn.value);
    r := Ok(m);
  }
}
