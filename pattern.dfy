/** The pattern notation of the Korean pipeline in src/morph.rs: morpheme
    elements written as text, a slash, the tag and a slash-star suffix, patterns of elements joined with `+`, the
    folding of conjoining jamo to compatibility jamo, tokens, rewrite rules and
    the trie that indexes rules by pattern. */
module Pattern {
  import opened Common
  import Dict

  /** A morpheme: surface text and part-of-speech tag. */
  datatype Element = Element(text: string, pos: string)

  /** `Element::is_word`: not an unknown span and not a symbol (`S*` tags). */
  predicate IsWordElement(e: Element) {
    e.pos != "UNK" && !(|e.pos| > 0 && e.pos[0] == 'S')
  }

  /** `Pattern::is_word`. */
  predicate IsWordPattern(p: seq<Element>) {
    forall e | e in p :: IsWordElement(e)
  }

  /** `POS_TAGS`: the word tags a final part of speech implies. */
  function PosTags(pos: string): seq<string>
  {
    match pos
    case "NNG" => ["noun"]
    case "NNP" => ["noun", "proper noun"]
    case "NNB" => ["noun", "bound noun"]
    case "NR" => ["number"]
    case "NP" => ["pronoun"]
    case "VV" => ["verb"]
    case "VA" => ["adj"]
    case "MM" => ["det"]
    case "MAG" => ["adv"]
    case "MAJ" => ["conjunction"]
    case "IC" => ["interjection"]
    case "ETN" => ["noun"]
    case "ETM" => ["prenoun"]
    case "XSV" => ["verb"]
    case "XSA" => ["adj"]
    case _ => []
  }

  /** `COMPATIBILITY_JAMO`: conjoining initial consonants U+1100..U+1112,
      vowels U+1161..U+1175 and final consonants U+11A8..U+11C2 map to Hangul
      compatibility jamo. The vowels map in order onto U+314F..U+3163; the
      consonants follow these tables. */
  const InitialJamo: seq<char> := [
      '\U{3131}', '\U{3132}', '\U{3134}', '\U{3137}', '\U{3138}', '\U{3139}', '\U{3141}',
      '\U{3142}', '\U{3143}', '\U{3145}', '\U{3146}', '\U{3147}', '\U{3148}', '\U{3149}',
      '\U{314A}', '\U{314B}', '\U{314C}', '\U{314D}', '\U{314E}'
    ]

  const FinalJamo: seq<char> := [
      '\U{3131}', '\U{3132}', '\U{3133}', '\U{3134}', '\U{3135}', '\U{3136}', '\U{3137}',
      '\U{3139}', '\U{313A}', '\U{313B}', '\U{313C}', '\U{313D}', '\U{313E}', '\U{313F}',
      '\U{3140}', '\U{3141}', '\U{3142}', '\U{3144}', '\U{3145}', '\U{3146}', '\U{3147}',
      '\U{3148}', '\U{314A}', '\U{314B}', '\U{314C}', '\U{314D}', '\U{314E}'
    ]

  predicate IsConjoiningJamo(c: char) {
    ('\U{1100}' <= c <= '\U{1112}') || ('\U{1161}' <= c <= '\U{1175}') || ('\U{11A8}' <= c <= '\U{11C2}')
  }

  /** `normalize_jamo`: the table's image of `c`, or `c` itself. */
  function NormalizeJamo(c: char): (r: char)
    ensures IsConjoiningJamo(c) ==> '\U{3131}' <= r <= '\U{3163}'
    ensures !IsConjoiningJamo(c) ==> r == c
  {
    if '\U{1100}' <= c <= '\U{1112}' then InitialJamo[c as int - 0x1100]
    else if '\U{1161}' <= c <= '\U{1175}' then (c as int - 0x1161 + 0x314F) as char
    else if '\U{11A8}' <= c <= '\U{11C2}' then FinalJamo[c as int - 0x11A8]
    else c
  }
  function NormalizeText(s: string): (r: string)
    ensures |r| == |s| && forall k | 0 <= k < |s| :: r[k] == NormalizeJamo(s[k])
  {
    if s == [] then [] else [NormalizeJamo(s[0])] + NormalizeText(s[1..])
  }

  predicate Normalized(s: string) {
    forall k | 0 <= k < |s| :: !IsConjoiningJamo(s[k])
  }

  /** Folding jamo yields text with nothing left to fold, so it is idempotent. */
  lemma NormalizeIdempotent(s: string)
    ensures Normalized(NormalizeText(s))
    ensures NormalizeText(NormalizeText(s)) == NormalizeText(s)
    ensures Normalized(s) ==> NormalizeText(s) == s
  {
  }

  /** Folding never produces a char outside the compatibility block that
      was not already there, such as `/` or `+`. */
  lemma NormalizePreservesAbsence(s: string, c: char)
    requires c !in s && !IsConjoiningJamo(c) && !('\U{3131}' <= c <= '\U{3163}')
    ensures c !in NormalizeText(s)
  {
  }

  // ---------------------------------------------------------------------
  // Text forms

  /** `Element::from_str`: exactly three `/`-separated fields, the third ignored. */
  function ParseElement(s: string): (r: Result<Element>)
    ensures r.Ok? <==> |Split(s, '/')| == 3
    ensures r.Ok? ==> r.value.text == NormalizeText(Split(s, '/')[0]) && r.value.pos == Split(s, '/')[1]
  {
    var fields := Split(s, '/');
    if |fields| != 3 then Err(AppError("invalid pattern element: " + s))
    else Ok(Element(NormalizeText(fields[0]), fields[1]))
  }

  /** `Element`'s `Display`: text, `/`, tag, then the fixed third field `*`. */
  function ShowElement(e: Element): string
  {
    e.text + "/" + e.pos + "/*"
  }

  /** An element the text form can carry: no `/` in either field and folded text. */
  predicate Printable(e: Element) {
    '/' !in e.text && '/' !in e.pos && Normalized(e.text)
  }

  lemma {:induction false} ElementRoundTrip(e: Element)
    requires Printable(e)
    ensures ParseElement(ShowElement(e)) == Ok(e)
  {
    var parts := [e.text, e.pos, "*"];
    assert Join(parts, '/') == ShowElement(e) by {
      assert Join(parts[2..], '/') == "*";
      assert Join(parts[1..], '/') == e.pos + "/" + "*";
    }
    SplitJoin(parts, '/');
    NormalizeIdempotent(e.text);
  }

  /** Every parsed element prints and parses back to itself. */
  lemma ParsedElementPrintable(s: string)
    requires ParseElement(s).Ok?
    ensures Printable(ParseElement(s).value)
    ensures ParseElement(ShowElement(ParseElement(s).value)) == ParseElement(s)
  {
    var e := ParseElement(s).value;
    var fields := Split(s, '/');
    assert '/' !in fields[0] && '/' !in fields[1];
    NormalizeIdempotent(fields[0]);
    NormalizePreservesAbsence(fields[0], '/');
    ElementRoundTrip(e);
  }

  /** Parses each `+`-separated piece, stopping at the first error. */
  function ParseElements(parts: seq<string>): (r: Result<seq<Element>>)
    ensures r.Ok? ==> |r.value| == |parts| && forall k | 0 <= k < |parts| :: Ok(r.value[k]) == ParseElement(parts[k])
    ensures r.Ok? <==> forall k | 0 <= k < |parts| :: ParseElement(parts[k]).Ok?
  {
    if parts == [] then Ok([])
    else
      var e :- ParseElement(parts[0]);
      var rest :- ParseElements(parts[1..]);
      Ok([e] + rest)
  }

  /** `Pattern::from_str`. */
  function ParsePattern(s: string): (r: Result<seq<Element>>)
    ensures r.Ok? ==> |r.value| >= 1
  {
    ParseElements(Split(s, '+'))
  }

  function ShowElements(p: seq<Element>): (r: seq<string>)
    ensures |r| == |p| && forall k | 0 <= k < |p| :: r[k] == ShowElement(p[k])
  {
    if p == [] then [] else [ShowElement(p[0])] + ShowElements(p[1..])
  }

  /** `Pattern`'s `Display`: the elements joined with `+`. */
  function ShowPattern(p: seq<Element>): string
  {
    Join(ShowElements(p), '+')
  }

  /** A pattern the text form can carry: non-empty (the empty text parses to one
      empty, invalid element), every element printable and free of `+`. */
  predicate PrintablePattern(p: seq<Element>) {
    |p| >= 1 && forall k | 0 <= k < |p| :: Printable(p[k]) && '+' !in p[k].text && '+' !in p[k].pos
  }

  lemma PatternRoundTrip(p: seq<Element>)
    requires PrintablePattern(p)
    ensures ParsePattern(ShowPattern(p)) == Ok(p)
  {
    var parts := ShowElements(p);
    forall k | 0 <= k < |parts| ensures '+' !in parts[k] {
      assert parts[k] == p[k].text + "/" + p[k].pos + "/*";
    }
    SplitJoin(parts, '+');
    forall k | 0 <= k < |p| ensures ParseElement(parts[k]) == Ok(p[k]) {
      ElementRoundTrip(p[k]);
    }
    var r := ParseElements(parts);
    assert r.value == p;
  }

  /** Every parsed pattern is printable, so it prints and parses back to itself. */
  lemma ParsedPatternRoundTrip(s: string)
    requires ParsePattern(s).Ok?
    ensures PrintablePattern(ParsePattern(s).value)
    ensures ParsePattern(ShowPattern(ParsePattern(s).value)) == ParsePattern(s)
  {
    var parts := Split(s, '+');
    var p := ParsePattern(s).value;
    forall k | 0 <= k < |p| ensures Printable(p[k]) && '+' !in p[k].text && '+' !in p[k].pos {
      ParsedElementPrintable(parts[k]);
      var fields := Split(parts[k], '/');
      assert Join(fields, '/') == parts[k];
      JoinContains(fields, '/', '+');
      NormalizePreservesAbsence(fields[0], '+');
    }
    PatternRoundTrip(p);
  }

  /** A char absent from a joined text is absent from every piece. */
  lemma {:induction false} JoinContains(parts: seq<string>, sep: char, c: char)
    requires c !in Join(parts, sep)
    ensures forall k | 0 <= k < |parts| :: c !in parts[k]
    decreases |parts|
  {
    if |parts| > 1 {
      assert Join(parts, sep) == parts[0] + [sep] + Join(parts[1..], sep);
      JoinContains(parts[1..], sep, c);
      forall k | 1 <= k < |parts| ensures c !in parts[k] {
        assert parts[k] == parts[1..][k - 1];
      }
    }
  }

  // ---------------------------------------------------------------------
  // Tokens

  /** A byte range `start..end` of the analysed text. */
  datatype Range = Range(start: nat, end: nat)

  /** A lexer token or a synthesised one; parsed overrides have no range. */
  datatype Token = Token(range: Option<Range>, text: string, pattern: seq<Element>)

  /** What the lexer hands over per token: its byte range and its feature string. */
  datatype LexerToken = LexerToken(range: Range, feature: string)

  /** `Token::from_lexer_token`: eight comma-separated feature fields; the
      surface form is field 3; field 7 is the analysis, `*` meaning "the
      token itself with the tag of field 0". */
  function FromLexerToken(t: LexerToken): (r: Result<Token>)
    ensures r.Ok? ==> |Split(t.feature, ',')| == 8 && r.value.range == Some(t.range)
                      && r.value.text == Split(t.feature, ',')[3]
    ensures r.Ok? && Split(t.feature, ',')[7] == "*" ==>
              r.value.pattern == [Element(Split(t.feature, ',')[3], Split(t.feature, ',')[0])]
    ensures r.Ok? && Split(t.feature, ',')[7] != "*" ==>
              Ok(r.value.pattern) == ParsePattern(Split(t.feature, ',')[7])
    ensures |Split(t.feature, ',')| == 8 && Split(t.feature, ',')[7] == "*" ==> r.Ok?
    ensures r.Ok? ==> |r.value.pattern| >= 1
  {
    var fields := Split(t.feature, ',');
    if |fields| != 8 then Err(AppError("token expected to have 8 fields: " + t.feature))
    else
      var text := fields[3];
      var pattern :- if fields[7] == "*" then Ok([Element(text, fields[0])]) else ParsePattern(fields[7]);
      Ok(Token(Some(t.range), text, pattern))
  }

  /** `maybe_string_to_list`: nothing for a missing or empty cell, else the
      comma-separated items, trimmed. */
  function MaybeStringToList(s: Option<string>): (r: seq<string>)
    ensures s.None? || s.value == [] ==> r == []
    ensures s.Some? && s.value != [] ==>
              |r| == |Split(s.value, ',')| && forall k | 0 <= k < |r| :: r[k] == Trim(Split(s.value, ',')[k])
  {
    if s.None? || s.value == [] then []
    else TrimAll(Split(s.value, ','))
  }

  function TrimAll(items: seq<string>): (r: seq<string>)
    ensures |r| == |items| && forall k | 0 <= k < |items| :: r[k] == Trim(items[k])
  {
    if items == [] then [] else [Trim(items[0])] + TrimAll(items[1..])
  }

  /** `WordParsing::from_str`: `;`-separated `text(pattern)` items, giving
      tokens without a range. */
  function ParseWordParsing(s: string): (r: Result<seq<Token>>)
    ensures var items := Split(s, ';');
            r.Ok? ==> |r.value| == |items| && forall k | 0 <= k < |items| :: ItemToken(items[k]) == Ok(r.value[k])
    ensures r.Ok? ==> forall k | 0 <= k < |r.value| :: |r.value[k].pattern| >= 1
  {
    ParseTokensSpec(Split(s, ';'));
    ParseTokens(Split(s, ';'))
  }

  /** One `text(pattern)` item: the text before the first `(` and the pattern
      text up to a final `)`. */
  function ParsedItem(item: string): (r: Option<(string, string)>)
    ensures r.Some? ==> item == r.value.0 + "(" + r.value.1 + ")" && '(' !in r.value.0
    ensures r.None? <==> '(' !in item || !EndsWith(item, ")")
  {
    match SplitOnce(item, '(')
    case None => None
    case Some((text, rest)) =>
      match StripSuffix(rest, ')')
      case None =>
        assert EndsWith(item, ")") <==> EndsWith(rest, ")") by {
          assert item == text + "(" + rest;
          if |rest| == 0 { assert item[|item| - 1] == '('; }
          else { assert item[|item| - 1] == rest[|rest| - 1]; }
        }
        None
      case Some(pattern) => Some((text, pattern))
  }

  /** The token one item denotes: an error unless it has the `text(pattern)`
      shape and its pattern parses. */
  function ItemToken(item: string): (r: Result<Token>)
    ensures r.Ok? <==> ParsedItem(item).Some? && ParsePattern(ParsedItem(item).value.1).Ok?
    ensures r.Ok? ==> r.value.range.None? && r.value.text == ParsedItem(item).value.0
                      && Ok(r.value.pattern) == ParsePattern(ParsedItem(item).value.1)
    ensures r.Ok? ==> |r.value.pattern| >= 1
  {
    match ParsedItem(item)
    case None => Err(AppError("invalid token: " + item))
    case Some((text, p)) =>
      var pattern :- ParsePattern(p);
      Ok(Token(None, text, pattern))
  }

  function ParseTokens(items: seq<string>): Result<seq<Token>>
  {
    if items == [] then Ok([])
    else
      var t :- ItemToken(items[0]);
      var rest :- ParseTokens(items[1..]);
      Ok([t] + rest)
  }

  /** A list of items parses iff every item does, giving one token per item in order. */
  lemma ParseTokensSpec(items: seq<string>)
    ensures ParseTokens(items).Ok? <==> forall k | 0 <= k < |items| :: ItemToken(items[k]).Ok?
    ensures ParseTokens(items).Ok? ==>
              |ParseTokens(items).value| == |items|
              && forall k | 0 <= k < |items| :: ItemToken(items[k]) == Ok(ParseTokens(items).value[k])
  {
    ParseTokensOk(items);
    ParseTokensValues(items);
  }

  /** A list of items parses iff every item does. */
  lemma {:induction false} ParseTokensOk(items: seq<string>)
    ensures ParseTokens(items).Ok? <==> forall k | 0 <= k < |items| :: ItemToken(items[k]).Ok?
    decreases |items|
  {
    if items != [] {
      var tail := items[1..];
      ParseTokensOk(tail);
      if ItemToken(items[0]).Ok? && ParseTokens(tail).Err? {
        var k :| 0 <= k < |tail| && !ItemToken(tail[k]).Ok?;
        assert items[k + 1] == tail[k];
      }
      if ParseTokens(items).Ok? {
        forall k | 0 <= k < |items| ensures ItemToken(items[k]).Ok? {
          if k > 0 { assert items[k] == tail[k - 1]; }
        }
      }
    }
  }

  /** A parsed list holds one token per item, in order. */
  lemma {:induction false} ParseTokensValues(items: seq<string>)
    ensures ParseTokens(items).Ok? ==>
              |ParseTokens(items).value| == |items|
              && forall k | 0 <= k < |items| :: ItemToken(items[k]) == Ok(ParseTokens(items).value[k])
    decreases |items|
  {
    if items != [] && ParseTokens(items).Ok? {
      var tail := items[1..];
      ParseTokensValues(tail);
      var ts := ParseTokens(items).value;
      assert ts == [ItemToken(items[0]).value] + ParseTokens(tail).value;
      forall k | 0 <= k < |items| ensures ItemToken(items[k]) == Ok(ts[k]) {
        if k > 0 { assert items[k] == tail[k - 1]; }
      }
    }
  }

  // ---------------------------------------------------------------------
  // Rules

  /** A rewrite rule. A rule with a translation is terminal: it names the
      word's meaning. Otherwise its output (or nothing) replaces the match. */
  datatype Rule = Rule(
    pattern: seq<Element>,
    parents: seq<string>,
    tags: seq<string>,
    translation: Option<string>,
    output: Option<seq<Element>>)

  /** A row of the rule table, as deserialised. */
  datatype RuleRow = RuleRow(
    pattern: seq<Element>,
    parents: Option<string>,
    tags: Option<string>,
    translation: Option<string>,
    output: Option<seq<Element>>)

  /** `From<RuleRow> for Rule`. */
  function RuleOfRow(row: RuleRow): (r: Rule)
    ensures r.pattern == row.pattern && r.translation == row.translation && r.output == row.output
    ensures r.parents == MaybeStringToList(row.parents) && r.tags == MaybeStringToList(row.tags)
  {
    Rule(row.pattern, MaybeStringToList(row.parents), MaybeStringToList(row.tags), row.translation, row.output)
  }

  /** Rules indexed by pattern, one trie edge per element. */
  datatype RuleTrie = RuleTrie(children: map<Element, RuleTrie>, rule: Option<Rule>)

  const EmptyTrie := RuleTrie(map[], None)

  /** The node reached by following `path` from `t`, if any. */
  function Node(t: RuleTrie, path: seq<Element>): Option<RuleTrie>
    decreases |path|
  {
    if path == [] then Some(t)
    else if path[0] in t.children then Node(t.children[path[0]], path[1..])
    else None
  }

  /** The rule stored for exactly `path`. */
  function RuleAt(t: RuleTrie, path: seq<Element>): Option<Rule>
  {
    match Node(t, path)
    case None => None
    case Some(n) => n.rule
  }

  /** The loop body of `load`: walk the rule's pattern, creating missing
      nodes, and store the rule at the end, replacing any earlier one. */
  function Insert(t: RuleTrie, path: seq<Element>, rule: Rule): RuleTrie
    decreases |path|
  {
    if path == [] then t.(rule := Some(rule))
    else
      var child := if path[0] in t.children then t.children[path[0]] else EmptyTrie;
      t.(children := t.children[path[0] := Insert(child, path[1..], rule)])
  }

  /** After inserting at `path` the rule there is the new one and every other
      path keeps its rule: a later duplicate pattern replaces the earlier rule. */
  lemma {:induction false} InsertRuleAt(t: RuleTrie, path: seq<Element>, rule: Rule, other: seq<Element>)
    ensures RuleAt(Insert(t, path, rule), other) == if other == path then Some(rule) else RuleAt(t, other)
    decreases |path|
  {
    if path == [] {
      if other != [] {
        assert Node(Insert(t, path, rule), other) == Node(t, other);
      }
    } else {
      var child := if path[0] in t.children then t.children[path[0]] else EmptyTrie;
      if other == [] {
      } else if other[0] != path[0] {
        assert Node(Insert(t, path, rule), other) == Node(t, other);
      } else {
        InsertRuleAt(child, path[1..], rule, other[1..]);
        if path[0] !in t.children {
          EmptyTrieHasNoRules(other[1..]);
        }
        assert other == path <==> other[1..] == path[1..] by {
          if other[1..] == path[1..] { assert other == [other[0]] + other[1..] && path == [path[0]] + path[1..]; }
        }
      }
    }
  }

  lemma EmptyTrieHasNoRules(path: seq<Element>)
    ensures RuleAt(EmptyTrie, path) == None
  {
  }

  /** Every stored rule sits at the path spelling its own pattern. */
  ghost predicate WellFormed(t: RuleTrie) {
    forall path | RuleAt(t, path).Some? :: RuleAt(t, path).value.pattern == path
  }

  lemma InsertWellFormed(t: RuleTrie, rule: Rule)
    requires WellFormed(t)
    ensures WellFormed(Insert(t, rule.pattern, rule))
  {
    forall path | RuleAt(Insert(t, rule.pattern, rule), path).Some?
      ensures RuleAt(Insert(t, rule.pattern, rule), path).value.pattern == path
    {
      InsertRuleAt(t, rule.pattern, rule, path);
    }
  }

  /** The trie `load` builds: the rows inserted in order. */
  function Load(rows: seq<RuleRow>): RuleTrie
  {
    if rows == [] then EmptyTrie
    else
      var rule := RuleOfRow(rows[|rows| - 1]);
      Insert(Load(rows[..|rows| - 1]), rule.pattern, rule)
  }

  /** The rule of the last row whose pattern is `path`, if any. */
  function LastRuleFor(rows: seq<RuleRow>, path: seq<Element>): (r: Option<Rule>)
    ensures r.Some? <==> exists k | 0 <= k < |rows| :: rows[k].pattern == path
    ensures r.Some? ==> r.value.pattern == path
    ensures r.Some? ==> exists k | 0 <= k < |rows| ::
      rows[k].pattern == path && r.value == RuleOfRow(rows[k]) &&
      forall j | k < j < |rows| :: rows[j].pattern != path
  {
    if rows == [] then None
    else if rows[|rows| - 1].pattern == path then Some(RuleOfRow(rows[|rows| - 1]))
    else
      var r := LastRuleFor(rows[..|rows| - 1], path);
      assert forall k | 0 <= k < |rows| - 1 :: rows[..|rows| - 1][k] == rows[k];
      r
  }

  /** After loading, the rule at each path is the last row with that pattern:
      a later duplicate replaces an earlier rule. */
  lemma {:induction false} LoadRuleAt(rows: seq<RuleRow>, path: seq<Element>)
    ensures RuleAt(Load(rows), path) == LastRuleFor(rows, path)
    decreases |rows|
  {
    if rows == [] {
      EmptyTrieHasNoRules(path);
    } else {
      var rule := RuleOfRow(rows[|rows| - 1]);
      LoadRuleAt(rows[..|rows| - 1], path);
      InsertRuleAt(Load(rows[..|rows| - 1]), rule.pattern, rule, path);
    }
  }

  /** The loaded trie stores each rule at its own pattern. */
  lemma LoadWellFormed(rows: seq<RuleRow>)
    ensures WellFormed(Load(rows))
  {
    forall path | RuleAt(Load(rows), path).Some? ensures RuleAt(Load(rows), path).value.pattern == path {
      LoadRuleAt(rows, path);
    }
  }

  /** The loading loop of `KoreanParser::load`, over rows already deserialised. */
  method LoadRules(rows: seq<RuleRow>) returns (rules: RuleTrie)
    ensures rules == Load(rows)
  {
    rules := EmptyTrie;
    for k := 0 to |rows|
      invariant rules == Load(rows[..k])
    {
      var rule := RuleOfRow(rows[k]);
      assert rows[..k + 1][..k] == rows[..k];
      rules := Insert(rules, rule.pattern, rule);
    }
    assert rows[..|rows|] == rows;
  }
}
