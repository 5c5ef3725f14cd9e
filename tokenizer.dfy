/**
 * The tokenizer object built by `createTokenizer`: a word-level vocabulary
 * learned from training texts, with encoding of text to ids and decoding of
 * ids back to text.
 */
module WordTokenizer {
  import opened Text
  import opened Counting
  import opened Ranking
  import opened Vocabulary

  /**
   * The special-token record once the options are merged into the defaults.
   * `extra` holds the values of any further keys the options add.
   */
  datatype SpecialTokens = SpecialTokens(unk: string, pad: string, start: string, end: string, extra: seq<string>) {
    /** `Object.values(specialTokens)`: the four named tokens first, then the others. */
    function Values(): seq<string> {
      [unk, pad, start, end] + extra
    }
  }

  const DefaultSpecials := SpecialTokens("<unk>", "<pad>", "<start>", "<end>", [])

  /** `options.maxVocab || 1000`, where 0 stands for an absent option. */
  function Cap(maxVocab: int): int {
    if maxVocab == 0 then 1000 else maxVocab
  }

  datatype Stats = Stats(vocabSize: int, specialTokensCount: int, regularWords: int, totalTrainingWords: int)

  /** The words of a list of entries. */
  function Keys(es: seq<Entry>): (ws: seq<string>)
    ensures |ws| == |es| && forall i :: 0 <= i < |es| ==> ws[i] == es[i].0
  {
    if es == [] then [] else [es[0].0] + Keys(es[1..])
  }

  /** The words `learnVocab` offers to the vocabulary after training on `ws`. */
  function Offered(ws: seq<string>, limit: int): seq<string> {
    Keys(Candidates(FirstSeen(ws), Tally(ws), limit))
  }

  /** `sortedWords`: the frequency table ranked by descending count and cut at `limit`. */
  function Candidates(order: seq<string>, counts: map<string, int>, limit: int): seq<Entry> {
    Slice(RankByCount(Entries(order, counts)), limit)
  }

  class Tokenizer {
    const maxVocab: int
    const specialTokens: SpecialTokens
    var vocab: map<string, int>
    var reverseVocab: map<int, string>
    /** The frequency table: `tokenCount` holds the counts, `countOrder` its keys in insertion order. */
    var tokenCount: map<string, int>
    var countOrder: seq<string>
    var nextId: int
    /** The words of the last training call, in order. */
    ghost var trained: seq<string>

    function State(): Table
      reads this
    {
      Table(vocab, reverseVocab, nextId)
    }

    /** The frequency table is that of the last training call. */
    ghost predicate Counted()
      reads this
    {
      tokenCount == Tally(trained) && countOrder == FirstSeen(trained)
    }

    ghost predicate Valid()
      reads this
    {
      Counted() && Vocabulary.Valid(State(), specialTokens.Values())
    }

    /** `createTokenizer`: registers the special tokens at ids `0, 1, 2, ...`. */
    constructor (maxVocab: int, specialTokens: SpecialTokens)
      ensures this.maxVocab == maxVocab && this.specialTokens == specialTokens
      ensures State() == Registered(Empty, specialTokens.Values())
      ensures tokenCount == map[] && countOrder == [] && trained == []
      ensures Distinct(specialTokens.Values()) ==> Valid()
    {
      this.maxVocab := maxVocab;
      this.specialTokens := specialTokens;
      vocab, reverseVocab, nextId := map[], map[], 0;
      tokenCount, countOrder, trained := map[], [], [];
      new;
      var values := specialTokens.Values();
      var i := 0;
      while i < |values|
        invariant 0 <= i <= |values|
        invariant State() == Registered(Empty, values[..i])
        invariant tokenCount == map[] && countOrder == [] && trained == []
      {
        var token := values[i];
        vocab := vocab[token := nextId];
        reverseVocab := reverseVocab[nextId := token];
        nextId := nextId + 1;
        assert values[..i + 1][..i] == values[..i];
        i := i + 1;
      }
      assert values[..i] == values;
      if Distinct(values) {
        RegisteredValid(values);
      }
    }

    /**
     * `learnVocab`: recounts the frequency table from `texts`, then offers
     * the ranked words to the vocabulary, which keeps its earlier entries.
     */
    method LearnVocab(texts: seq<string>) returns (counts: map<string, int>)
      modifies this
      ensures trained == Corpus(texts) && Counted()
      ensures counts == tokenCount
      ensures State() == AddWords(old(State()), Offered(Corpus(texts), Cap(maxVocab) - old(nextId)))
      ensures old(Valid()) ==> Valid()
      ensures old(nextId) <= Cap(maxVocab) ==> nextId <= Cap(maxVocab)
    {
      CountWords(texts);
      var sortedWords := Candidates(countOrder, tokenCount, Cap(maxVocab) - nextId);
      ghost var before := State();
      AddCandidates(sortedWords);
      counts := tokenCount;
      if old(Valid()) {
        LearnedValid(before, specialTokens.Values(), texts, Cap(maxVocab) - before.nextId);
      }
      if before.nextId <= Cap(maxVocab) {
        LearnedCap(before, texts, Cap(maxVocab));
      }
    }

    /** The counting pass of `learnVocab`: clears the frequency table and counts every word of `texts`. */
    method CountWords(texts: seq<string>)
      modifies this`tokenCount, this`countOrder, this`trained
      ensures trained == Corpus(texts) && Counted()
    {
      tokenCount, countOrder := map[], [];
      trained := [];
      var i := 0;
      while i < |texts|
        invariant 0 <= i <= |texts|
        invariant trained == Corpus(texts[..i]) && Counted()
      {
        CorpusSnoc(texts, i);
        CountTokens(Tokenize(texts[i]));
        i := i + 1;
      }
      assert texts[..i] == texts;
    }

    /** The inner `forEach` of the counting pass: counts the words of one text. */
    method CountTokens(words: seq<string>)
      requires Counted()
      modifies this`tokenCount, this`countOrder, this`trained
      ensures trained == old(trained) + words && Counted()
    {
      var j := 0;
      while j < |words|
        invariant 0 <= j <= |words|
        invariant trained == old(trained) + words[..j] && Counted()
      {
        CountWord(words[j]);
        assert words[..j + 1] == words[..j] + [words[j]];
        j := j + 1;
      }
      assert words[..j] == words;
    }

    /** `tokenCount.set(word, (tokenCount.get(word) || 0) + 1)` */
    method CountWord(word: string)
      requires Counted()
      modifies this`tokenCount, this`countOrder, this`trained
      ensures trained == old(trained) + [word] && Counted()
      ensures tokenCount[word] == (if word in old(tokenCount) then old(tokenCount)[word] else 0) + 1
    {
      CountStep(trained, word);
      if word in tokenCount {
        tokenCount := tokenCount[word := tokenCount[word] + 1];
      } else {
        tokenCount := tokenCount[word := 1];
        countOrder := countOrder + [word];
      }
      trained := trained + [word];
    }

    /** The adding pass of `learnVocab`: each candidate not yet in the vocabulary gets the next id. */
    method AddCandidates(sortedWords: seq<Entry>)
      modifies this`vocab, this`reverseVocab, this`nextId
      ensures State() == AddWords(old(State()), Keys(sortedWords))
    {
      ghost var start := State();
      var k := 0;
      while k < |sortedWords|
        invariant 0 <= k <= |sortedWords|
        invariant State() == AddWords(start, Keys(sortedWords[..k]))
      {
        var word := sortedWords[k].0;
        KeysSnoc(sortedWords, k);
        AddWordsSnoc(start, Keys(sortedWords[..k]), word);
        if word !in vocab {
          vocab := vocab[word := nextId];
          reverseVocab := reverseVocab[nextId := word];
          nextId := nextId + 1;
        }
        k := k + 1;
      }
      assert sortedWords[..k] == sortedWords;
    }

    /** `vocab.get(token) || 0` */
    function IdOrZero(token: string): int
      reads this
    {
      if token in vocab then vocab[token] else 0
    }

    /** `vocab.get(word) || vocab.get(specialTokens.UNK) || 0` */
    function IdOf(word: string): int
      reads this
    {
      if word in vocab && vocab[word] != 0 then vocab[word] else IdOrZero(specialTokens.unk)
    }

    /** `encode`: the ids of the tokens of `text`, between the start and end ids. */
    function Encode(text: string): (ids: seq<int>)
      reads this
      ensures |ids| == |Tokenize(text)| + 2
      ensures Valid() ==> ids[0] == 2 && ids[|ids| - 1] == 3
      ensures Valid() ==> forall i :: 0 <= i < |Tokenize(text)| ==>
                ids[i + 1] == (if Tokenize(text)[i] in vocab then vocab[Tokenize(text)[i]] else 0)
    {
      var words := Tokenize(text);
      var encoded := seq(|words|, i requires 0 <= i < |words| reads this => IdOf(words[i]));
      var ids := [IdOrZero(specialTokens.start)] + encoded + [IdOrZero(specialTokens.end)];
      assert forall i :: 0 <= i < |words| ==> ids[i + 1] == IdOf(words[i]);
      LookupUnderInvariant(this);
      ids
    }

    /** Whether decoding shows the word of `id`: known, non-empty and not a special token. */
    predicate Shown(id: int)
      reads this
    {
      id in reverseVocab && reverseVocab[id] != "" && reverseVocab[id] !in specialTokens.Values()
    }

    /** `numbers.map(num => reverseVocab.get(num)).filter(word => word && !special)` */
    function Kept(ids: seq<int>): (words: seq<string>)
      reads this
      ensures forall i :: 0 <= i < |words| ==> words[i] != "" && words[i] !in specialTokens.Values()
    {
      if ids == [] then []
      else (if Shown(ids[0]) then [reverseVocab[ids[0]]] else []) + Kept(ids[1..])
    }

    /** The tokens encoding keeps distinguishable: those in the vocabulary that are not special tokens. */
    function KnownWords(ws: seq<string>): seq<string>
      reads this
    {
      if ws == [] then []
      else (if ws[0] in vocab && ws[0] !in specialTokens.Values() then [ws[0]] else []) + KnownWords(ws[1..])
    }

    /** `decode`: the shown words of `ids` joined with single spaces. */
    function Decode(ids: seq<int>): (text: string)
      reads this
      ensures Valid() ==> Tokenize(text) == Kept(ids)
    {
      DecodedTokens(this, ids);
      Join(Kept(ids))
    }

    /** `getStats` */
    function GetStats(): (s: Stats)
      reads this
      ensures s.specialTokensCount == |specialTokens.Values()|
      ensures s.regularWords == s.vocabSize - s.specialTokensCount
      ensures Counted() ==> s.totalTrainingWords == |trained|
      ensures Valid() ==> s.vocabSize == nextId && s.regularWords >= 0
    {
      SumTally(trained);
      var n := |specialTokens.Values()|;
      Stats(|vocab|, n, |vocab| - n, SumCounts(countOrder, tokenCount))
    }
  }

  /**
   * Under the invariant the start and end tokens have ids 2 and 3, and the
   * fallback to `UNK` in a lookup yields 0, the id a missing word would get
   * from `|| 0` anyway.
   */
  lemma LookupUnderInvariant(tk: Tokenizer)
    ensures tk.Valid() ==> tk.IdOrZero(tk.specialTokens.start) == 2 && tk.IdOrZero(tk.specialTokens.end) == 3
    ensures tk.Valid() ==> forall w :: tk.IdOf(w) == if w in tk.vocab then tk.vocab[w] else 0
  {
    if tk.Valid() {
      var values := tk.specialTokens.Values();
      SpecialIds(tk.State(), values);
      assert values[0] == tk.specialTokens.unk && values[2] == tk.specialTokens.start && values[3] == tk.specialTokens.end;
    }
  }

  /** Under the invariant every word decoding shows is in the vocabulary and is a word `tokenize` can produce. */
  lemma {:induction false} KeptAreWords(tk: Tokenizer, ids: seq<int>)
    requires tk.Valid()
    ensures forall i :: 0 <= i < |tk.Kept(ids)| ==> IsWord(tk.Kept(ids)[i]) && tk.Kept(ids)[i] in tk.vocab
  {
    if ids != [] {
      KeptAreWords(tk, ids[1..]);
      if tk.Shown(ids[0]) {
        assert tk.reverseVocab[ids[0]] in tk.vocab;
      }
    }
  }

  /** Decoded text tokenizes back to exactly the words decoding showed. */
  lemma DecodedTokens(tk: Tokenizer, ids: seq<int>)
    ensures tk.Valid() ==> Tokenize(Join(tk.Kept(ids))) == tk.Kept(ids)
  {
    if tk.Valid() {
      KeptAreWords(tk, ids);
      TokenizeJoin(tk.Kept(ids));
    }
  }

  /** The words `learnVocab` offers to the vocabulary are training words, each once. */
  lemma CandidateWords(ws: seq<string>, limit: int)
    ensures forall i :: 0 <= i < |Offered(ws, limit)| ==> Offered(ws, limit)[i] in ws
    ensures Distinct(Offered(ws, limit))
  {
    var es := Entries(FirstSeen(ws), Tally(ws));
    var ranked := RankByCount(es);
    var cs := Candidates(FirstSeen(ws), Tally(ws), limit);
    RankByCountSorted(es);
    FirstSeenKeys(ws);
    forall i | 0 <= i < |cs| ensures cs[i].0 in ws {
      assert cs[i] == ranked[i];
      assert ranked[i] in multiset(es);
    }
    assert KeysDistinct(es);
  }

  /**
   * The candidates carry each word's number of occurrences and come in
   * descending order of count; the ranking keeps words of equal count in
   * the order they were first seen.
   */
  lemma CandidateCounts(ws: seq<string>, limit: int)
    ensures forall i :: 0 <= i < |Candidates(FirstSeen(ws), Tally(ws), limit)| ==>
              Candidates(FirstSeen(ws), Tally(ws), limit)[i].1 == multiset(ws)[Candidates(FirstSeen(ws), Tally(ws), limit)[i].0]
    ensures Descending(Candidates(FirstSeen(ws), Tally(ws), limit))
    ensures forall c :: WithCount(RankByCount(Entries(FirstSeen(ws), Tally(ws))), c) == WithCount(Entries(FirstSeen(ws), Tally(ws)), c)
  {
    var es := Entries(FirstSeen(ws), Tally(ws));
    var ranked := RankByCount(es);
    var cs := Candidates(FirstSeen(ws), Tally(ws), limit);
    RankByCountSorted(es);
    FirstSeenKeys(ws);
    TallyCounts(ws);
    forall i | 0 <= i < |cs| ensures cs[i].1 == multiset(ws)[cs[i].0] {
      assert cs[i] == ranked[i];
      assert ranked[i] in multiset(es);
      var k :| 0 <= k < |es| && es[k] == ranked[i];
    }
    forall c {
      RankByCountStable(es, c);
    }
  }

  /**
   * Training gives the offered words that are not yet in the vocabulary the
   * ids `nextId, nextId + 1, ...` in ranking order, and nothing else.
   */
  lemma LearnedIds(t: Table, ws: seq<string>, limit: int)
    ensures AddWords(t, Offered(ws, limit)).nextId ==
              t.nextId + |Unseen(t.vocab, Offered(ws, limit))|
    ensures RunFrom(AddWords(t, Offered(ws, limit)), Unseen(t.vocab, Offered(ws, limit)), t.nextId)
  {
    CandidateWords(ws, limit);
    AddWordsAppends(t, Offered(ws, limit));
  }

  /** Training keeps the invariant. */
  lemma LearnedValid(t: Table, specials: seq<string>, texts: seq<string>, limit: int)
    requires Vocabulary.Valid(t, specials)
    ensures Vocabulary.Valid(AddWords(t, Offered(Corpus(texts), limit)), specials)
  {
    CorpusWords(texts);
    CandidateWords(Corpus(texts), limit);
    AddWordsValid(t, specials, Offered(Corpus(texts), limit));
  }

  /** Training keeps the vocabulary within the cap when it started within it. */
  lemma LearnedCap(t: Table, texts: seq<string>, cap: int)
    requires t.nextId <= cap
    ensures AddWords(t, Offered(Corpus(texts), cap - t.nextId)).nextId <= cap
  {
    var ws := Offered(Corpus(texts), cap - t.nextId);
    assert |ws| <= cap - t.nextId;
    AddWordsKeeps(t, ws);
  }

  /**
   * The cap is not honoured once `nextId` is past it: the end passed to
   * `slice` is then negative and drops only that many words from the back of
   * the ranking. If the training words are all new and outnumber the
   * overshoot, the vocabulary grows beyond `nextId`, which already exceeds
   * the cap.
   */
  lemma LearnPastCap(t: Table, ws: seq<string>, cap: int)
    requires cap < t.nextId
    requires t.nextId - cap < |FirstSeen(ws)|
    requires forall i :: 0 <= i < |ws| ==> ws[i] !in t.vocab
    ensures AddWords(t, Offered(ws, cap - t.nextId)).nextId == t.nextId + |FirstSeen(ws)| - (t.nextId - cap)
    ensures AddWords(t, Offered(ws, cap - t.nextId)).nextId > t.nextId > cap
  {
    var es := Entries(FirstSeen(ws), Tally(ws));
    var ranked := RankByCount(es);
    assert |ranked| == |multiset(ranked)| == |multiset(es)| == |es|;
    var o := Offered(ws, cap - t.nextId);
    assert |o| == |FirstSeen(ws)| + cap - t.nextId;
    CandidateWords(ws, cap - t.nextId);
    UnseenAll(t.vocab, o);
    AddWordsAppends(t, o);
  }

  lemma KeysSnoc(es: seq<Entry>, k: int)
    requires 0 <= k < |es|
    ensures Keys(es[..k + 1]) == Keys(es[..k]) + [es[k].0]
  {
  }

  /**
   * Decoding keeps exactly the words of the shown ids: a word is kept if and
   * only if some id in the input is shown and names it. `KeptConcat` gives
   * their order.
   */
  lemma {:induction false} KeptExact(tk: Tokenizer, ids: seq<int>)
    ensures forall w :: w in tk.Kept(ids) <==>
              exists i :: 0 <= i < |ids| && tk.Shown(ids[i]) && tk.reverseVocab[ids[i]] == w
  {
    if ids != [] {
      KeptExact(tk, ids[1..]);
      forall w | w in tk.Kept(ids)
        ensures exists i :: 0 <= i < |ids| && tk.Shown(ids[i]) && tk.reverseVocab[ids[i]] == w
      {
        if !(tk.Shown(ids[0]) && tk.reverseVocab[ids[0]] == w) {
          assert w in tk.Kept(ids[1..]);
          var j :| 0 <= j < |ids[1..]| && tk.Shown(ids[1..][j]) && tk.reverseVocab[ids[1..][j]] == w;
          assert ids[j + 1] == ids[1..][j];
        }
      }
      forall w | exists i :: 0 <= i < |ids| && tk.Shown(ids[i]) && tk.reverseVocab[ids[i]] == w
        ensures w in tk.Kept(ids)
      {
        var i :| 0 <= i < |ids| && tk.Shown(ids[i]) && tk.reverseVocab[ids[i]] == w;
        if i > 0 {
          assert ids[1..][i - 1] == ids[i];
        }
      }
    }
  }

  lemma {:induction false} KeptConcat(tk: Tokenizer, a: seq<int>, b: seq<int>)
    ensures tk.Kept(a + b) == tk.Kept(a) + tk.Kept(b)
  {
    if a == [] {
      assert a + b == b;
    } else {
      assert (a + b)[1..] == a[1..] + b;
      KeptConcat(tk, a[1..], b);
    }
  }

  /**
   * The default options register `<unk>`, `<pad>`, `<start>` and `<end>` at
   * ids 0 to 3 and leave `nextId` at 4, with the invariant established.
   */
  lemma DefaultRegistration()
    ensures Registered(Empty, DefaultSpecials.Values()).vocab ==
              map["<unk>" := 0, "<pad>" := 1, "<start>" := 2, "<end>" := 3]
    ensures Registered(Empty, DefaultSpecials.Values()).nextId == 4
    ensures Vocabulary.Valid(Registered(Empty, DefaultSpecials.Values()), DefaultSpecials.Values())
  {
    var values := DefaultSpecials.Values();
    assert values == ["<unk>", "<pad>", "<start>", "<end>"];
    var t1 := Registered(Empty, ["<unk>"]);
    var t2 := Registered(Empty, ["<unk>", "<pad>"]);
    var t3 := Registered(Empty, ["<unk>", "<pad>", "<start>"]);
    assert ["<unk>"][..0] == [];
    assert t1 == Assign(Empty, "<unk>");
    assert ["<unk>", "<pad>"][..1] == ["<unk>"];
    assert t2 == Assign(t1, "<pad>");
    assert ["<unk>", "<pad>", "<start>"][..2] == ["<unk>", "<pad>"];
    assert t3 == Assign(t2, "<start>");
    assert values[..3] == ["<unk>", "<pad>", "<start>"];
    assert Registered(Empty, values) == Assign(t3, "<end>");
    RegisteredValid(values);
  }

  /** A token never collides with a default special token, whose `<` no token holds. */
  lemma DefaultSpecialsAreNotTokens(text: string)
    ensures forall i :: 0 <= i < |Tokenize(text)| ==> Tokenize(text)[i] !in DefaultSpecials.Values()
  {
    TokensAvoid(text, '<');
    forall i | 0 <= i < |Tokenize(text)| ensures Tokenize(text)[i] !in DefaultSpecials.Values() {
      forall v | v in DefaultSpecials.Values() ensures '<' in v {
        assert v[0] == '<';
      }
    }
  }

  /** The middle ids of an encoding decode to the known words among the tokens. */
  lemma {:induction false} KeptEncoded(tk: Tokenizer, words: seq<string>, mid: seq<int>)
    requires tk.Valid()
    requires |mid| == |words|
    requires forall i :: 0 <= i < |words| ==> mid[i] == (if words[i] in tk.vocab then tk.vocab[words[i]] else 0)
    ensures tk.Kept(mid) == tk.KnownWords(words)
  {
    if words != [] {
      var values := tk.specialTokens.Values();
      SpecialIds(tk.State(), values);
      KeptEncoded(tk, words[1..], mid[1..]);
      var w := words[0];
      if w in tk.vocab {
        assert tk.reverseVocab[mid[0]] == w;
        if w !in values {
          assert IsWord(w);
        }
      } else {
        assert tk.reverseVocab[0] == values[0];
      }
    }
  }

  /**
   * Decoding an encoding gives back the tokens of the text, less those that
   * are unknown or special, joined by single spaces.
   */
  lemma EncodeDecode(tk: Tokenizer, text: string)
    requires tk.Valid()
    ensures tk.Decode(tk.Encode(text)) == Join(tk.KnownWords(Tokenize(text)))
  {
    var ids := tk.Encode(text);
    var mid := ids[1..|ids| - 1];
    EncodeShape(tk, text);
    KeptConcat(tk, [2] + mid, [3]);
    KeptConcat(tk, [2], mid);
    KeptSpecialId(tk, 2);
    KeptSpecialId(tk, 3);
    KeptEncoded(tk, Tokenize(text), mid);
    assert tk.Kept([2] + mid) == tk.Kept(mid);
    assert tk.Kept(ids) == tk.KnownWords(Tokenize(text));
  }

  lemma EncodeShape(tk: Tokenizer, text: string)
    requires tk.Valid()
    ensures tk.Encode(text) == [2] + tk.Encode(text)[1..|tk.Encode(text)| - 1] + [3]
  {
    var ids := tk.Encode(text);
    assert ids[0] == 2 && ids[|ids| - 1] == 3;
  }

  /** The id of a special token decodes to nothing. */
  lemma KeptSpecialId(tk: Tokenizer, k: int)
    requires tk.Valid() && 0 <= k < 4
    ensures tk.Kept([k]) == []
  {
    assert [k][1..] == [];
    assert tk.reverseVocab[k] == tk.specialTokens.Values()[k];
  }

  lemma {:induction false} KnownWordsAll(tk: Tokenizer, ws: seq<string>)
    requires forall i :: 0 <= i < |ws| ==> ws[i] in tk.vocab && ws[i] !in tk.specialTokens.Values()
    ensures tk.KnownWords(ws) == ws
  {
    if ws != [] {
      KnownWordsAll(tk, ws[1..]);
    }
  }

  /**
   * When every token of the text is in the vocabulary and none is special,
   * decoding the encoding gives the tokens joined by single spaces, and
   * tokenizing that gives the same tokens.
   */
  lemma RoundTrip(tk: Tokenizer, text: string)
    requires tk.Valid()
    requires forall i :: 0 <= i < |Tokenize(text)| ==>
               Tokenize(text)[i] in tk.vocab && Tokenize(text)[i] !in tk.specialTokens.Values()
    ensures tk.Decode(tk.Encode(text)) == Join(Tokenize(text))
    ensures Tokenize(tk.Decode(tk.Encode(text))) == Tokenize(text)
  {
    EncodeDecode(tk, text);
    KnownWordsAll(tk, Tokenize(text));
    TokenizeIdempotent(text);
  }

  /** Decoding is a fixed point of encoding: decoding what was decoded and re-encoded changes nothing. */
  lemma DecodeEncodeDecode(tk: Tokenizer, ids: seq<int>)
    requires tk.Valid()
    ensures tk.Decode(tk.Encode(tk.Decode(ids))) == tk.Decode(ids)
  {
    KeptAreWords(tk, ids);
    EncodeDecode(tk, tk.Decode(ids));
    KnownWordsAll(tk, tk.Kept(ids));
  }
}
