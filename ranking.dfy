/**
 * Ranking of the frequency table's entries:
 * `.sort((a, b) => b[1] - a[1])`, a stable sort by descending count, and
 * `.slice(0, end)` with JavaScript's treatment of a negative `end`.
 */
module Ranking {

  type Entry = (string, int)

  /** Counts never increase along `s`. */
  predicate Descending(s: seq<Entry>) {
    forall i, j :: 0 <= i < j < |s| ==> s[i].1 >= s[j].1
  }

  /** The words of `s` are pairwise different. */
  predicate KeysDistinct(s: seq<Entry>) {
    forall i, j :: 0 <= i < j < |s| ==> s[i].0 != s[j].0
  }

  /** The entries of `s` whose count is `c`, in their order in `s`. */
  function WithCount(s: seq<Entry>, c: int): (r: seq<Entry>)
    ensures forall i :: 0 <= i < |r| ==> r[i].1 == c && r[i] in s
  {
    if s == [] then []
    else (if s[0].1 == c then [s[0]] else []) + WithCount(s[1..], c)
  }

  /** Puts `e` before the first entry whose count is not above its own. */
  function InsertByCount(e: Entry, sorted: seq<Entry>): (r: seq<Entry>)
    ensures multiset(r) == multiset(sorted) + multiset{e}
  {
    if sorted == [] || sorted[0].1 <= e.1 then [e] + sorted
    else
      assert sorted == [sorted[0]] + sorted[1..];
      [sorted[0]] + InsertByCount(e, sorted[1..])
  }

  /** The stable sort by descending count. */
  function RankByCount(es: seq<Entry>): (r: seq<Entry>)
    ensures multiset(r) == multiset(es)
  {
    if es == [] then []
    else
      var rest := RankByCount(es[1..]);
      assert es == [es[0]] + es[1..];
      InsertByCount(es[0], rest)
  }

  /** `s.slice(0, end)`: a negative `end` counts from the back, both ends are clamped. */
  function Slice<T>(s: seq<T>, end: int): (r: seq<T>)
    ensures |r| <= |s| && r == s[..|r|]
    ensures 0 <= end ==> |r| == (if end < |s| then end else |s|)
    ensures end < 0 ==> |r| == (if |s| + end < 0 then 0 else |s| + end)
  {
    var k := if end < 0 then (if |s| + end < 0 then 0 else |s| + end)
             else (if end < |s| then end else |s|);
    s[..k]
  }

  lemma {:induction false} InsertByCountSorted(e: Entry, sorted: seq<Entry>)
    requires Descending(sorted)
    ensures Descending(InsertByCount(e, sorted))
  {
    if !(sorted == [] || sorted[0].1 <= e.1) {
      var rest := InsertByCount(e, sorted[1..]);
      InsertByCountSorted(e, sorted[1..]);
      forall x | x in rest ensures x.1 <= sorted[0].1 {
        assert x in multiset(rest);
      }
    }
  }

  lemma {:induction false} InsertByCountDistinct(e: Entry, sorted: seq<Entry>)
    requires KeysDistinct(sorted)
    requires forall i :: 0 <= i < |sorted| ==> sorted[i].0 != e.0
    ensures KeysDistinct(InsertByCount(e, sorted))
  {
    if !(sorted == [] || sorted[0].1 <= e.1) {
      var rest := InsertByCount(e, sorted[1..]);
      InsertByCountDistinct(e, sorted[1..]);
      forall x | x in rest ensures x.0 != sorted[0].0 {
        assert x in multiset(rest);
      }
    }
  }

  /** The ranking is ordered by descending count and lists each word at most once if the table did. */
  lemma {:induction false} RankByCountSorted(es: seq<Entry>)
    ensures Descending(RankByCount(es))
    ensures KeysDistinct(es) ==> KeysDistinct(RankByCount(es))
  {
    if es != [] {
      var rest := RankByCount(es[1..]);
      RankByCountSorted(es[1..]);
      InsertByCountSorted(es[0], rest);
      if KeysDistinct(es) {
        forall i | 0 <= i < |rest| ensures rest[i].0 != es[0].0 {
          assert rest[i] in multiset(es[1..]);
        }
        InsertByCountDistinct(es[0], rest);
      }
    }
  }

  /** Insertion keeps every count class in order, with `e` first in its own. */
  lemma {:induction false} InsertByCountStable(e: Entry, sorted: seq<Entry>, c: int)
    ensures WithCount(InsertByCount(e, sorted), c) == (if e.1 == c then [e] else []) + WithCount(sorted, c)
  {
    if sorted == [] || sorted[0].1 <= e.1 {
      assert ([e] + sorted)[1..] == sorted;
    } else {
      var r, rest := InsertByCount(e, sorted), InsertByCount(e, sorted[1..]);
      assert r == [sorted[0]] + rest;
      assert r[0] == sorted[0] && r[1..] == rest;
      InsertByCountStable(e, sorted[1..], c);
      assert WithCount(r, c) == (if sorted[0].1 == c then [sorted[0]] else []) + WithCount(rest, c);
      assert WithCount(sorted, c) == (if sorted[0].1 == c then [sorted[0]] else []) + WithCount(sorted[1..], c);
    }
  }

  /**
   * The sort is stable: the entries that share a count keep their relative
   * order.
   */
  lemma {:induction false} RankByCountStable(es: seq<Entry>, c: int)
    ensures WithCount(RankByCount(es), c) == WithCount(es, c)
  {
    if es != [] {
      RankByCountStable(es[1..], c);
      InsertByCountStable(es[0], RankByCount(es[1..]), c);
    }
  }
}
