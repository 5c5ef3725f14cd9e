/**
 * The frequency table `learnVocab` fills: a map from word to count whose keys
 * keep their insertion order, as a JavaScript `Map` does. The order of the
 * keys is kept as a separate sequence (`FirstSeen`), the counts as a `map`
 * (`Tally`). Both are defined over the flat list of words of a training call,
 * one word at a time from the front, exactly as the nested `forEach` loops
 * visit them.
 */
module Counting {
  import opened Text

  predicate Distinct<T(==)>(s: seq<T>) {
    forall i, j :: 0 <= i < j < |s| ==> s[i] != s[j]
  }

  /** Every word of every text, in training order. */
  function Corpus(texts: seq<string>): seq<string> {
    if texts == [] then []
    else Corpus(texts[..|texts| - 1]) + Tokenize(texts[|texts| - 1])
  }

  /** The counts after `tokenCount.set(word, (tokenCount.get(word) || 0) + 1)` for every word. */
  function Tally(ws: seq<string>): map<string, int> {
    if ws == [] then map[]
    else
      var m := Tally(ws[..|ws| - 1]);
      var w := ws[|ws| - 1];
      m[w := (if w in m then m[w] else 0) + 1]
  }

  /** The keys of the frequency table in insertion order: each word once, where it first occurs. */
  function FirstSeen(ws: seq<string>): seq<string> {
    if ws == [] then []
    else
      var f := FirstSeen(ws[..|ws| - 1]);
      var w := ws[|ws| - 1];
      if w in f then f else f + [w]
  }

  /** The position of the first occurrence of `w` in `ws`. */
  function FirstIndex(ws: seq<string>, w: string): (k: nat)
    requires w in ws
    ensures k < |ws| && ws[k] == w && w !in ws[..k]
  {
    if ws[0] == w then 0 else 1 + FirstIndex(ws[1..], w)
  }

  /** `Array.from(tokenCount.values()).reduce((a, b) => a + b, 0)`, the keys taken in `order`. */
  function SumCounts(order: seq<string>, counts: map<string, int>): int {
    if order == [] then 0
    else
      var w := order[|order| - 1];
      SumCounts(order[..|order| - 1], counts) + (if w in counts then counts[w] else 0)
  }

  /** `Array.from(tokenCount.entries())`: the (word, count) pairs in insertion order. */
  function Entries(order: seq<string>, counts: map<string, int>): (es: seq<(string, int)>)
    ensures |es| == |order|
    ensures forall i :: 0 <= i < |es| ==> es[i].0 == order[i]
    ensures forall i :: 0 <= i < |es| && order[i] in counts ==> es[i].1 == counts[order[i]]
  {
    if order == [] then []
    else [(order[0], if order[0] in counts then counts[order[0]] else 0)] + Entries(order[1..], counts)
  }

  lemma CorpusSnoc(texts: seq<string>, i: int)
    requires 0 <= i < |texts|
    ensures Corpus(texts[..i + 1]) == Corpus(texts[..i]) + Tokenize(texts[i])
  {
    assert texts[..i + 1][..i] == texts[..i];
  }

  /** Every word of the corpus is a token. */
  lemma {:induction false} CorpusWords(texts: seq<string>)
    ensures forall i :: 0 <= i < |Corpus(texts)| ==> IsWord(Corpus(texts)[i])
  {
    if texts != [] {
      CorpusWords(texts[..|texts| - 1]);
      TokensAreWords(texts[|texts| - 1]);
    }
  }

  /** One more word: its count goes up by one, and it joins the key order if it is new. */
  lemma CountStep(ws: seq<string>, w: string)
    ensures w in Tally(ws) ==> Tally(ws + [w]) == Tally(ws)[w := Tally(ws)[w] + 1]
    ensures w !in Tally(ws) ==> Tally(ws + [w]) == Tally(ws)[w := 1]
    ensures FirstSeen(ws + [w]) == if w in ws then FirstSeen(ws) else FirstSeen(ws) + [w]
    ensures w in Tally(ws) <==> w in ws
  {
    assert (ws + [w])[..|ws|] == ws;
    TallyCounts(ws);
    FirstSeenKeys(ws);
  }

  /** Each word seen is listed, once. */
  lemma {:induction false} FirstSeenKeys(ws: seq<string>)
    ensures forall w :: w in FirstSeen(ws) <==> w in ws
    ensures Distinct(FirstSeen(ws))
  {
    if ws != [] {
      var init := ws[..|ws| - 1];
      FirstSeenKeys(init);
      assert ws == init + [ws[|ws| - 1]];
    }
  }

  /** The table holds exactly the words seen, each with its number of occurrences. */
  lemma {:induction false} TallyCounts(ws: seq<string>)
    ensures forall w :: w in Tally(ws) <==> w in ws
    ensures forall w :: w in Tally(ws) ==> Tally(ws)[w] == multiset(ws)[w]
  {
    if ws != [] {
      var init, w := ws[..|ws| - 1], ws[|ws| - 1];
      TallyCounts(init);
      assert ws == init + [w];
      assert multiset(ws) == multiset(init) + multiset{w};
    }
  }

  /** Words are listed in the order of their first occurrences. */
  lemma {:induction false} FirstSeenOrder(ws: seq<string>)
    ensures forall i, j :: 0 <= i < j < |FirstSeen(ws)| ==>
              && FirstSeen(ws)[i] in ws && FirstSeen(ws)[j] in ws
              && FirstIndex(ws, FirstSeen(ws)[i]) < FirstIndex(ws, FirstSeen(ws)[j])
  {
    FirstSeenKeys(ws);
    if ws != [] {
      var init, w := ws[..|ws| - 1], ws[|ws| - 1];
      FirstSeenOrder(init);
      FirstSeenKeys(init);
      assert ws == init + [w];
      forall x | x in init ensures FirstIndex(ws, x) == FirstIndex(init, x) {
        FirstIndexExtend(init, w, x);
      }
      if w !in init {
        assert FirstIndex(ws, w) == |init| by {
          assert ws[..|init|] == init;
        }
      }
    }
  }

  lemma {:induction false} FirstIndexExtend(ws: seq<string>, w: string, x: string)
    requires x in ws
    ensures FirstIndex(ws + [w], x) == FirstIndex(ws, x)
  {
    if ws[0] != x {
      assert (ws + [w])[1..] == ws[1..] + [w];
      FirstIndexExtend(ws[1..], w, x);
    }
  }

  lemma {:induction false} SumIgnores(order: seq<string>, counts: map<string, int>, w: string, v: int)
    requires w !in order
    ensures SumCounts(order, counts[w := v]) == SumCounts(order, counts)
  {
    if order != [] {
      SumIgnores(order[..|order| - 1], counts, w, v);
    }
  }

  lemma {:induction false} SumBump(order: seq<string>, counts: map<string, int>, w: string)
    requires Distinct(order) && w in order && w in counts
    ensures SumCounts(order, counts[w := counts[w] + 1]) == SumCounts(order, counts) + 1
  {
    var init, last := order[..|order| - 1], order[|order| - 1];
    if last == w {
      assert w !in init;
      SumIgnores(init, counts, w, counts[w] + 1);
    } else {
      assert w in init;
      SumBump(init, counts, w);
    }
  }

  /** The total of the frequency table is the number of words trained on. */
  lemma {:induction false} SumTally(ws: seq<string>)
    ensures SumCounts(FirstSeen(ws), Tally(ws)) == |ws|
  {
    if ws != [] {
      var init, w := ws[..|ws| - 1], ws[|ws| - 1];
      SumTally(init);
      TallyCounts(init);
      FirstSeenKeys(init);
      var f, m := FirstSeen(init), Tally(init);
      if w in f {
        SumBump(f, m, w);
      } else {
        SumIgnores(f, m, w, 1);
        assert (f + [w])[..|f|] == f;
      }
    }
  }
}
