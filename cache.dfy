/** The in-memory word cache of src/dict.rs (`Cache`): words by id, and per
    surface text an index of the ids stored under it with two flags, "some word
    with this text surely exists" and "the index lists every such word". */
module DictCache {
  import opened Common
  import opened Dict

  datatype WordIndex = WordIndex(surelyExists: bool, complete: bool, wordIds: seq<int>)

  /** `WordIndex::default()`. */
  const EmptyIndex := WordIndex(false, false, [])

  /** The words of `ids` that `words` holds, in order (`flat_map` over `get`). */
  function LookupAll(words: map<int, Word>, ids: seq<int>): (r: seq<Word>)
    ensures |r| <= |ids|
    ensures (forall i | 0 <= i < |ids| :: ids[i] in words) ==>
              |r| == |ids| && forall i | 0 <= i < |ids| :: r[i] == words[ids[i]]
    ensures forall w | w in r :: exists i | 0 <= i < |ids| :: ids[i] in words && words[ids[i]] == w
  {
    if ids == [] then []
    else
      var rest := LookupAll(words, ids[1..]);
      forall w | w in rest ensures exists i | 0 <= i < |ids| :: ids[i] in words && words[ids[i]] == w {
        var i :| 0 <= i < |ids[1..]| && ids[1..][i] in words && words[ids[1..][i]] == w;
        assert ids[i + 1] == ids[1..][i];
      }
      if ids[0] in words then
        var r := [words[ids[0]]] + rest;
        assert forall w | w in r :: w == words[ids[0]] || w in rest;
        r
      else rest
  }

  /** `Vec::retain(|id| *id != x)`. */
  function Without(ids: seq<int>, x: int): (r: seq<int>)
    ensures forall id :: id in r <==> id in ids && id != x
    ensures NoDup(ids) ==> NoDup(r)
  {
    if ids == [] then []
    else
      var rest := Without(ids[1..], x);
      assert forall id :: id in ids <==> id == ids[0] || id in ids[1..];
      assert NoDup(ids) ==> ids[0] !in ids[1..] && NoDup(ids[1..]);
      if ids[0] == x then rest else [ids[0]] + rest
  }

  class Cache {
    var words: map<int, Word>
    var textIndex: map<string, WordIndex>
    var hasAllWords: bool

    /** Every cached word is stored under its own id and listed in the index of
        its own text; every listed id is cached under that text; no index lists
        an id twice. */
    ghost predicate Valid()
      reads this
    {
      && (forall id | id in words ::
            words[id].id == Some(id) && words[id].text in textIndex && id in textIndex[words[id].text].wordIds)
      && (forall t | t in textIndex :: NoDup(textIndex[t].wordIds))
      && (forall t, id | t in textIndex && id in textIndex[t].wordIds :: id in words && words[id].text == t)
    }

    /** `Cache::new`. */
    constructor ()
      ensures Valid()
      ensures words == map[] && textIndex == map[] && !hasAllWords
    {
      words := map[];
      textIndex := map[];
      hasAllWords := false;
    }

    function IndexOf(text: string): WordIndex
      reads this
    {
      if text in textIndex then textIndex[text] else EmptyIndex
    }

    /** `exists_by_text`: Some(answer) when the cache knows whether a word with
        this text exists, None when the database must be asked. */
    function ExistsByText(text: string): (r: Option<bool>)
      reads this
      ensures text !in textIndex ==> r == if hasAllWords then Some(false) else None
      ensures text in textIndex ==>
                (r == Some(true) <==> textIndex[text].surelyExists || textIndex[text].wordIds != [])
      ensures text in textIndex ==>
                (r == Some(false) <==> !textIndex[text].surelyExists && textIndex[text].wordIds == []
                                       && textIndex[text].complete)
    {
      if text !in textIndex then
        if hasAllWords then Some(false) else None
      else
        var index := textIndex[text];
        if index.surelyExists || index.wordIds != [] then Some(true)
        else if index.complete then Some(false)
        else None
    }

    /** `find_word_by_id`. */
    function FindWordById(id: int): (r: Option<Word>)
      reads this
      ensures r.Some? <==> id in words
      ensures r.Some? ==> r.value == words[id]
    {
      if id in words then Some(words[id]) else None
    }

    /** `find_all_words_by_text`: the cached words under `text` when the index
        for it is complete (or every word is known to be cached), else None. */
    function FindAllWordsByText(text: string): (r: Option<seq<Word>>)
      reads this
      ensures r.Some? <==> (text in textIndex && textIndex[text].complete) || (text !in textIndex && hasAllWords)
      ensures r.Some? && text in textIndex ==> r.value == LookupAll(words, textIndex[text].wordIds)
      ensures r.Some? && text !in textIndex ==> r.value == []
    {
      if text !in textIndex then
        if hasAllWords then Some([]) else None
      else if !textIndex[text].complete then None
      else Some(LookupAll(words, textIndex[text].wordIds))
    }

    /** Everything the cache lists under a text has that text, and it lists
        each cached word under its id exactly once. */
    lemma FindAllSound(text: string)
      requires Valid()
      ensures FindAllWordsByText(text).Some? ==>
                forall w | w in FindAllWordsByText(text).value :: w.text == text && w.id.Some?
                  && w.id.value in words && words[w.id.value] == w
    {
      if FindAllWordsByText(text).Some? && text in textIndex {
        var ids := textIndex[text].wordIds;
        forall w | w in LookupAll(words, ids)
          ensures w.text == text && w.id.Some? && w.id.value in words && words[w.id.value] == w
        {
          var i :| 0 <= i < |ids| && ids[i] in words && words[ids[i]] == w;
          var id := ids[i];
          assert id in textIndex[text].wordIds;
          assert words[id].text == text;
          assert words[id].id == Some(id);
        }
      }
    }

    /** The two queries agree: the cache never reports a text absent while
        listing words for it, nor lists words for a text it cannot confirm. */
    lemma QueriesAgree(text: string)
      requires Valid()
      ensures ExistsByText(text) == Some(false) ==> FindAllWordsByText(text) == Some([])
      ensures FindAllWordsByText(text).Some? && FindAllWordsByText(text).value != [] ==>
                ExistsByText(text) == Some(true)
    {
    }

    /** `set_text_index_complete`. */
    method SetTextIndexComplete(text: string)
      requires Valid()
      modifies this
      ensures Valid()
      ensures textIndex == old(textIndex)[text := old(IndexOf(text)).(complete := true)]
      ensures words == old(words) && hasAllWords == old(hasAllWords)
      ensures FindAllWordsByText(text).Some?
    {
      textIndex := textIndex[text := IndexOf(text).(complete := true)];
    }

    /** `set_text_index_has_all_words`. */
    method SetTextIndexHasAllWords()
      requires Valid()
      modifies this
      ensures Valid()
      ensures hasAllWords && words == old(words) && textIndex == old(textIndex)
      ensures forall t | t !in textIndex :: ExistsByText(t) == Some(false) && FindAllWordsByText(t) == Some([])
    {
      hasAllWords := true;
    }

    /** `set_word_exists`: records that a word with this text exists, or that
        none does, in which case every word cached under it is dropped. */
    method SetWordExists(text: string, exists_: bool)
      requires Valid()
      modifies this
      ensures Valid()
      ensures hasAllWords == old(hasAllWords)
      ensures exists_ ==>
                words == old(words)
                && textIndex == old(textIndex)[text := old(IndexOf(text)).(surelyExists := true)]
      ensures !exists_ ==>
                words == old(words) - (set id | id in old(IndexOf(text)).wordIds)
                && textIndex == old(textIndex)[text := WordIndex(false, true, [])]
      ensures ExistsByText(text) == Some(exists_)
      ensures !exists_ ==> FindAllWordsByText(text) == Some([])
    {
      var index := IndexOf(text);
      if exists_ {
        textIndex := textIndex[text := index.(surelyExists := true)];
      } else {
        var k := 0;
        while k < |index.wordIds|
          invariant 0 <= k <= |index.wordIds|
          invariant words == old(words) - (set i | 0 <= i < k :: index.wordIds[i])
          invariant textIndex == old(textIndex) && hasAllWords == old(hasAllWords)
        {
          words := words - {index.wordIds[k]};
          k := k + 1;
        }
        assert (set i | 0 <= i < k :: index.wordIds[i]) == (set id | id in index.wordIds);
        textIndex := textIndex[text := WordIndex(false, true, [])];
        forall id | id in words
          ensures words[id].text in textIndex && id in textIndex[words[id].text].wordIds
        {
          assert id in old(words) && id !in index.wordIds;
        }
      }
    }

    /** `invalidate_by_id`: drops the word and makes its text's index neither
        complete nor sure, since the database may hold more than the cache. */
    method InvalidateById(id: int)
      requires Valid()
      modifies this
      ensures Valid()
      ensures hasAllWords == old(hasAllWords)
      ensures id !in old(words) ==> words == old(words) && textIndex == old(textIndex)
      ensures id in old(words) ==>
                var t := old(words)[id].text;
                words == old(words) - {id}
                && textIndex == old(textIndex)[t := WordIndex(false, false, Without(old(textIndex)[t].wordIds, id))]
      ensures FindWordById(id).None?
    {
      if id !in words {
        return;
      }
      var word := words[id];
      words := words - {id};
      if word.text in textIndex {
        var index := textIndex[word.text];
        textIndex := textIndex[word.text := WordIndex(false, false, Without(index.wordIds, id))];
      }
    }

    /** `insert_word`: caches a word that has an id. A word already cached under
        the id with the same text is replaced in place; one with another text
        is invalidated first, and a word new to the cache is listed under its
        own text, whose index then surely exists. */
    method InsertWord(w: Word)
      requires Valid()
      modifies this
      ensures Valid()
      ensures hasAllWords == old(hasAllWords)
      ensures w.id.None? ==> words == old(words) && textIndex == old(textIndex)
      ensures w.id.Some? ==> words == old(words)[w.id.value := w]
      ensures w.id.Some? ==> FindWordById(w.id.value) == Some(w) && ExistsByText(w.text) == Some(true)
      ensures w.id.Some? && w.id.value in old(words) && old(words)[w.id.value].text == w.text ==>
                textIndex == old(textIndex)
      ensures w.id.Some? && w.id.value !in old(words) ==>
                textIndex == old(textIndex)[w.text := Listed(old(IndexOf(w.text)), w.id.value)]
      ensures w.id.Some? && w.id.value in old(words) && old(words)[w.id.value].text != w.text ==>
                var t := old(words)[w.id.value].text;
                textIndex == old(textIndex)[t := WordIndex(false, false, Without(old(textIndex)[t].wordIds, w.id.value))]
                                           [w.text := Listed(old(IndexOf(w.text)), w.id.value)]
    {
      if w.id.None? {
        return;
      }
      var id := w.id.value;
      if id in words {
        if w.text == words[id].text {
          words := words[id := w];
          return;
        }
        InvalidateById(id);
      }
      AddNew(w);
    }

    /** The index of a text after `id` is pushed onto it. */
    static function Listed(index: WordIndex, id: int): WordIndex {
      index.(wordIds := index.wordIds + [id], surelyExists := true)
    }

    /** The tail of `insert_word` for an id the cache does not hold. */
    method AddNew(w: Word)
      requires Valid() && w.id.Some? && w.id.value !in words
      modifies this
      ensures Valid()
      ensures hasAllWords == old(hasAllWords)
      ensures words == old(words)[w.id.value := w]
      ensures textIndex == old(textIndex)[w.text := Listed(old(IndexOf(w.text)), w.id.value)]
      ensures ExistsByText(w.text) == Some(true)
    {
      var id := w.id.value;
      var index := IndexOf(w.text);
      // The source pushes only when the index lacks the id, which `Valid` guarantees here.
      assert id !in index.wordIds;
      words := words[id := w];
      textIndex := textIndex[w.text := Listed(index, id)];
    }

    /** `invalidate_text_index_complete`. */
    method InvalidateTextIndexComplete(text: string)
      requires Valid()
      modifies this
      ensures Valid()
      ensures words == old(words) && hasAllWords == old(hasAllWords)
      ensures textIndex == if text in old(textIndex)
                           then old(textIndex)[text := old(textIndex)[text].(complete := false)]
                           else old(textIndex)
      ensures text in textIndex ==> FindAllWordsByText(text).None?
    {
      if text in textIndex {
        textIndex := textIndex[text := textIndex[text].(complete := false)];
      }
    }

    /** `invalidate_text_index_flags`. */
    method InvalidateTextIndexFlags(text: string)
      requires Valid()
      modifies this
      ensures Valid()
      ensures words == old(words) && hasAllWords == old(hasAllWords)
      ensures textIndex == if text in old(textIndex)
                           then old(textIndex)[text := old(textIndex)[text].(complete := false, surelyExists := false)]
                           else old(textIndex)
    {
      if text in textIndex {
        textIndex := textIndex[text := textIndex[text].(complete := false, surelyExists := false)];
      }
    }
  }
}
