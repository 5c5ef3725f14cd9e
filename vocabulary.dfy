/**
 * The tokenizer's vocabulary as a value: `vocab` (word to id),
 * `reverseVocab` (id to word) and the `nextId` counter. The tokenizer class
 * holds the three as fields; this module says what its two writing loops do
 * to them and which invariant they keep.
 */
module Vocabulary {
  import opened Text
  import opened Counting

  datatype Table = Table(vocab: map<string, int>, reverse: map<int, string>, nextId: int)

  /** The state before the special tokens are registered. */
  const Empty := Table(map[], map[], 0)

  /** `vocab.set(w, nextId); reverseVocab.set(nextId, w); nextId++` */
  function Assign(t: Table, w: string): Table {
    Table(t.vocab[w := t.nextId], t.reverse[t.nextId := w], t.nextId + 1)
  }

  /** Construction: every special token assigned in turn, present or not. */
  function Registered(t: Table, ws: seq<string>): Table {
    if ws == [] then t else Assign(Registered(t, ws[..|ws| - 1]), ws[|ws| - 1])
  }

  /** One step of training: `if (!vocab.has(w))` assign `w` the next id. */
  function AddNew(t: Table, w: string): Table {
    if w in t.vocab then t else Assign(t, w)
  }

  /** Training: every candidate word offered in turn. */
  function AddWords(t: Table, ws: seq<string>): Table {
    if ws == [] then t else AddNew(AddWords(t, ws[..|ws| - 1]), ws[|ws| - 1])
  }

  lemma AddWordsSnoc(t: Table, ws: seq<string>, w: string)
    ensures AddWords(t, ws + [w]) == AddNew(AddWords(t, ws), w)
  {
    assert (ws + [w])[..|ws|] == ws;
  }

  /** The words of `ws` that are not keys of `known`, in order. */
  function Unseen(known: map<string, int>, ws: seq<string>): (u: seq<string>)
    ensures forall x :: x in u <==> x in ws && x !in known
  {
    if ws == [] then []
    else Unseen(known, ws[..|ws| - 1]) + (if ws[|ws| - 1] in known then [] else [ws[|ws| - 1]])
  }

  /** When no offered word is known yet, all of them are unseen. */
  lemma {:induction false} UnseenAll(known: map<string, int>, ws: seq<string>)
    requires forall i :: 0 <= i < |ws| ==> ws[i] !in known
    ensures Unseen(known, ws) == ws
  {
    if ws != [] {
      UnseenAll(known, ws[..|ws| - 1]);
      assert ws == ws[..|ws| - 1] + [ws[|ws| - 1]];
    }
  }

  /** `vocab` and `reverse` are mutual inverses. */
  ghost predicate Bijective(t: Table) {
    && (forall w :: w in t.vocab ==> t.vocab[w] in t.reverse && t.reverse[t.vocab[w]] == w)
    && (forall i :: i in t.reverse ==> t.reverse[i] in t.vocab && t.vocab[t.reverse[i]] == i)
  }

  /** The ids in use are exactly `0 .. nextId - 1`, one word each. */
  ghost predicate Contiguous(t: Table) {
    && (forall i :: i in t.reverse <==> 0 <= i < t.nextId)
    && |t.vocab| == t.nextId
  }

  /** The special tokens hold the lowest ids, in order. */
  ghost predicate SpecialsFirst(t: Table, specials: seq<string>) {
    && |specials| <= t.nextId
    && forall i :: 0 <= i < |specials| ==> i in t.reverse && t.reverse[i] == specials[i]
  }

  /** Every entry is a special token or a word `tokenize` can produce. */
  ghost predicate WordsOnly(t: Table, specials: seq<string>) {
    forall w :: w in t.vocab ==> w in specials || IsWord(w)
  }

  ghost predicate Valid(t: Table, specials: seq<string>) {
    Bijective(t) && Contiguous(t) && SpecialsFirst(t, specials) && WordsOnly(t, specials)
  }

  /**
   * Under the invariant the `i`-th special token has id `i`, and only the
   * first special token has id 0.
   */
  lemma SpecialIds(t: Table, specials: seq<string>)
    ensures Valid(t, specials) ==>
              forall i :: 0 <= i < |specials| ==> specials[i] in t.vocab && t.vocab[specials[i]] == i
    ensures Valid(t, specials) && |specials| > 0 ==>
              forall w :: w in t.vocab && t.vocab[w] == 0 ==> w == specials[0]
  {
  }

  /** Assigning an absent word keeps the maps inverse and the ids contiguous, and keeps every entry. */
  lemma AssignKeeps(t: Table, w: string)
    requires Bijective(t) && Contiguous(t) && w !in t.vocab
    ensures Bijective(Assign(t, w)) && Contiguous(Assign(t, w))
    ensures forall x :: x in t.vocab ==> Assign(t, w).vocab[x] == t.vocab[x]
    ensures forall i :: i in t.reverse ==> Assign(t, w).reverse[i] == t.reverse[i]
  {
    var r := Assign(t, w);
    assert t.nextId !in t.reverse;
    assert |r.vocab| == |t.vocab| + 1;
  }

  /**
   * Construction assigns id `i` to the `i`-th special token and stops at
   * `nextId == |ws|`, whether or not the tokens are distinct.
   */
  lemma {:induction false} RegisteredShape(ws: seq<string>)
    ensures Registered(Empty, ws).nextId == |ws|
    ensures forall i :: i in Registered(Empty, ws).reverse <==> 0 <= i < |ws|
    ensures forall i :: 0 <= i < |ws| ==> Registered(Empty, ws).reverse[i] == ws[i]
    ensures forall w :: w in Registered(Empty, ws).vocab <==> w in ws
  {
    if ws != [] {
      var init := ws[..|ws| - 1];
      RegisteredShape(init);
      assert ws == init + [ws[|ws| - 1]];
    }
  }

  /** With distinct special tokens, construction establishes the invariant. */
  lemma {:induction false} RegisteredValid(ws: seq<string>)
    requires Distinct(ws)
    ensures Valid(Registered(Empty, ws), ws)
  {
    RegisteredShape(ws);
    if ws != [] {
      var init, w := ws[..|ws| - 1], ws[|ws| - 1];
      RegisteredValid(init);
      RegisteredShape(init);
      assert w !in init;
      AssignKeeps(Registered(Empty, init), w);
    }
  }

  /**
   * Training never removes or renumbers an entry: the old words keep their
   * ids, the new keys are words offered, and the counter grows by at most one
   * per word offered.
   */
  lemma {:induction false} AddWordsKeeps(t: Table, ws: seq<string>)
    ensures forall w :: w in t.vocab ==> w in AddWords(t, ws).vocab && AddWords(t, ws).vocab[w] == t.vocab[w]
    ensures forall w :: w in AddWords(t, ws).vocab <==> w in t.vocab || w in ws
    ensures t.nextId <= AddWords(t, ws).nextId <= t.nextId + |ws|
    ensures Contiguous(t) ==>
              forall i :: i in t.reverse ==> i in AddWords(t, ws).reverse && AddWords(t, ws).reverse[i] == t.reverse[i]
  {
    if ws != [] {
      var init, w := ws[..|ws| - 1], ws[|ws| - 1];
      AddWordsKeeps(t, init);
      assert ws == init + [w];
    }
  }

  /** The words of `run` hold the consecutive ids `base, base + 1, ...` in both maps of `t`. */
  ghost predicate RunFrom(t: Table, run: seq<string>, base: int) {
    forall k :: 0 <= k < |run| ==>
      && run[k] in t.vocab && t.vocab[run[k]] == base + k
      && base + k in t.reverse && t.reverse[base + k] == run[k]
  }

  /**
   * With distinct candidates, the words not yet present get the consecutive
   * ids `nextId, nextId + 1, ...` in the order they are offered, and nothing
   * else is added.
   */
  lemma {:induction false} AddWordsAppends(t: Table, ws: seq<string>)
    requires Distinct(ws)
    ensures AddWords(t, ws).nextId == t.nextId + |Unseen(t.vocab, ws)|
    ensures RunFrom(AddWords(t, ws), Unseen(t.vocab, ws), t.nextId)
  {
    if ws != [] {
      var init, w := ws[..|ws| - 1], ws[|ws| - 1];
      assert Distinct(init) && w !in init;
      AddWordsAppends(t, init);
      AddWordsKeeps(t, init);
      var mid, u0 := AddWords(t, init), Unseen(t.vocab, init);
      if w in t.vocab {
        assert AddWords(t, ws) == mid && Unseen(t.vocab, ws) == u0;
      } else {
        assert w !in mid.vocab;
        assert AddWords(t, ws) == Assign(mid, w);
        assert Unseen(t.vocab, ws) == u0 + [w];
        AssignAppends(mid, u0, w, t.nextId);
      }
    }
  }

  /** Assigning a new word extends a run of consecutive ids by one. */
  lemma AssignAppends(t: Table, run: seq<string>, w: string, base: int)
    requires t.nextId == base + |run| && w !in t.vocab
    requires RunFrom(t, run, base)
    ensures RunFrom(Assign(t, w), run + [w], base)
  {
    var r, u := Assign(t, w), run + [w];
    forall k | 0 <= k < |u|
      ensures u[k] in r.vocab && r.vocab[u[k]] == base + k
      ensures base + k in r.reverse && r.reverse[base + k] == u[k]
    {
      if k < |run| {
        assert u[k] == run[k];
      }
    }
  }

  /** Training with words `tokenize` can produce keeps the invariant. */
  lemma {:induction false} AddWordsValid(t: Table, specials: seq<string>, ws: seq<string>)
    requires Valid(t, specials)
    requires forall i :: 0 <= i < |ws| ==> IsWord(ws[i])
    ensures Valid(AddWords(t, ws), specials)
  {
    if ws != [] {
      var init, w := ws[..|ws| - 1], ws[|ws| - 1];
      AddWordsValid(t, specials, init);
      var mid := AddWords(t, init);
      if w !in mid.vocab {
        AssignKeeps(mid, w);
      }
    }
  }
}
