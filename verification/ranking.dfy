/** Ranking of scored ids: Python's stable `sorted(xs, key=score, reverse=True)`
    and `heapq.nlargest(n, xs, key=score)`, which the standard library
    documents as `sorted(xs, key=score, reverse=True)[:n]`. */
module Ranking {
  import opened PySemantics

  /** An `(id, score)` pair: an item and its score, or a user and its similarity. */
  datatype Scored = Scored(id: int, score: real)

  ghost predicate NonIncreasing(s: seq<Scored>) {
    forall i, j :: 0 <= i < j < |s| ==> s[i].score >= s[j].score
  }

  /** `x` goes before `y` in a stable descending sort whose input lists ids
      by ascending `rank`: the higher score first, and on equal scores the
      lower rank. */
  ghost predicate Precedes(x: Scored, y: Scored, rank: int -> int) {
    x.score > y.score || (x.score == y.score && rank(x.id) < rank(y.id))
  }

  /** `s` is ordered by descending score, and entries with equal scores are
      ordered by ascending `rank` of their ids. */
  ghost predicate RankedBy(s: seq<Scored>, rank: int -> int) {
    forall i, j :: 0 <= i < j < |s| ==> Precedes(s[i], s[j], rank)
  }

  /** The ids of `s` have strictly ascending `rank`: the order a stable sort keeps among ties. */
  ghost predicate AscendingBy(s: seq<Scored>, rank: int -> int) {
    forall i, j :: 0 <= i < j < |s| ==> rank(s[i].id) < rank(s[j].id)
  }

  /** An entry ranked before every entry of an ascending list can lead it. */
  lemma AscendingCons(x: Scored, s: seq<Scored>, rank: int -> int)
    requires AscendingBy(s, rank)
    requires forall y :: y in s ==> rank(x.id) < rank(y.id)
    ensures AscendingBy([x] + s, rank)
  {
    var r := [x] + s;
    forall i, j | 0 <= i < j < |r| ensures rank(r[i].id) < rank(r[j].id) {
      assert r[j] == s[j - 1];
      if i > 0 {
        assert r[i] == s[i - 1];
      }
    }
  }

  function Ids(s: seq<Scored>): set<int> {
    set x | x in s :: x.id
  }

  /** Puts `x` in front of the first entry whose score is not above its own,
      so `x` precedes the entries with an equal score. */
  function Insert(x: Scored, t: seq<Scored>): (r: seq<Scored>)
    ensures |r| == |t| + 1
    ensures multiset(r) == multiset(t) + multiset{x}
    ensures forall e :: e in r <==> e == x || e in t
  {
    if t == [] || x.score >= t[0].score then [x] + t
    else
      assert t == [t[0]] + t[1..];
      [t[0]] + Insert(x, t[1..])
  }

  lemma {:induction false} InsertNonIncreasing(x: Scored, t: seq<Scored>)
    requires NonIncreasing(t)
    ensures NonIncreasing(Insert(x, t))
  {
    if t != [] && x.score < t[0].score {
      InsertNonIncreasing(x, t[1..]);
      var tail := Insert(x, t[1..]);
      forall e | e in tail ensures t[0].score >= e.score {
        if e != x {
          var m :| 0 <= m < |t[1..]| && t[1..][m] == e;
          assert t[m + 1] == e;
        }
      }
    }
  }

  /** Stable descending sort by score: an insertion sort whose earlier
      entries win ties. */
  function SortDesc(s: seq<Scored>): (r: seq<Scored>)
    ensures |r| == |s|
    ensures multiset(r) == multiset(s)
    ensures NonIncreasing(r)
  {
    if s == [] then []
    else
      assert s == [s[0]] + s[1..];
      InsertNonIncreasing(s[0], SortDesc(s[1..]));
      Insert(s[0], SortDesc(s[1..]))
  }

  lemma {:induction false} InsertRanked(x: Scored, t: seq<Scored>, rank: int -> int)
    requires RankedBy(t, rank)
    requires forall e :: e in t ==> rank(x.id) < rank(e.id)
    ensures RankedBy(Insert(x, t), rank)
  {
    if t == [] || x.score >= t[0].score {
      RankedFront(x, t, rank);
    } else {
      InsertRanked(x, t[1..], rank);
      RankedBehind(x, t, Insert(x, t[1..]), rank);
    }
  }

  /** `x` goes first when its score is at least the head's. */
  lemma RankedFront(x: Scored, t: seq<Scored>, rank: int -> int)
    requires RankedBy(t, rank)
    requires forall e :: e in t ==> rank(x.id) < rank(e.id)
    requires t == [] || x.score >= t[0].score
    ensures RankedBy([x] + t, rank)
  {
    var r := [x] + t;
    forall i, j | 0 <= i < j < |r|
      ensures Precedes(r[i], r[j], rank)
    {
      if i == 0 {
        assert r[j] == t[j - 1] && r[j] in t;
        if j > 1 {
          assert t[0].score >= t[j - 1].score;
        }
      } else {
        assert r[i] == t[i - 1] && r[j] == t[j - 1];
      }
    }
  }

  /** The head stays first when it outscores `x`, given the ranked tail
      `tail` holding `x` and the rest of `t`. */
  lemma RankedBehind(x: Scored, t: seq<Scored>, tail: seq<Scored>, rank: int -> int)
    requires RankedBy(t, rank)
    requires t != [] && x.score < t[0].score
    requires RankedBy(tail, rank)
    requires forall e :: e in tail ==> e == x || e in t[1..]
    ensures RankedBy([t[0]] + tail, rank)
  {
    var r := [t[0]] + tail;
    forall i, j | 0 <= i < j < |r|
      ensures Precedes(r[i], r[j], rank)
    {
      if i == 0 {
        var e := r[j];
        assert e in tail;
        if e != x {
          var m :| 0 <= m < |t[1..]| && t[1..][m] == e;
          assert t[m + 1] == e;
        }
      } else {
        assert r[i] == tail[i - 1] && r[j] == tail[j - 1];
      }
    }
  }

  /** A stable sort: when the input's ids ascend by `rank`, the output is
      ordered by descending score and then by ascending rank. */
  lemma {:induction false} SortDescRanked(s: seq<Scored>, rank: int -> int)
    requires AscendingBy(s, rank)
    ensures RankedBy(SortDesc(s), rank)
  {
    if s != [] {
      SortDescRanked(s[1..], rank);
      var t := SortDesc(s[1..]);
      forall e | e in t
        ensures rank(s[0].id) < rank(e.id)
      {
        assert e in multiset(t);
        var m :| 0 <= m < |s[1..]| && s[1..][m] == e;
        assert s[m + 1] == e;
      }
      InsertRanked(s[0], t, rank);
    }
  }

  /** `heapq.nlargest(n, s, key=score)`: no entries for `n <= 0`, otherwise
      the first `n` of the stable descending sort. */
  function NLargest(n: int, s: seq<Scored>): (r: seq<Scored>)
    ensures |r| == if n <= 0 then 0 else Min(n, |s|)
    ensures NonIncreasing(r)
    ensures multiset(r) <= multiset(s)
    ensures forall x :: x in r ==> x in s
    ensures forall x, y :: x in r && y in s && y !in r ==> x.score >= y.score
  {
    if n <= 0 then []
    else
      PrefixOfSortDesc(s, n);
      Prefix(SortDesc(s), n)
  }

  /** Every Python slice `sorted[:k]` of the descending sort, negative `k`
      included, is a top slice: non-increasing, a sub-multiset of `s`, and
      scoring at least as high as every entry of `s` it leaves out. */
  lemma PrefixOfSortDesc(s: seq<Scored>, k: int)
    ensures NonIncreasing(Prefix(SortDesc(s), k))
    ensures multiset(Prefix(SortDesc(s), k)) <= multiset(s)
    ensures forall x :: x in Prefix(SortDesc(s), k) ==> x in s
    ensures forall x, y :: x in Prefix(SortDesc(s), k) && y in s && y !in Prefix(SortDesc(s), k) ==>
      x.score >= y.score
  {
    var sorted := SortDesc(s);
    TopOfPermutation(s, sorted, |Prefix(sorted, k)|);
  }

  /** `TopOfSorted` for a non-increasing permutation of `s`, stated
      against `s`. */
  lemma TopOfPermutation(s: seq<Scored>, sorted: seq<Scored>, n: nat)
    requires n <= |sorted| && NonIncreasing(sorted) && multiset(sorted) == multiset(s)
    ensures NonIncreasing(sorted[..n])
    ensures multiset(sorted[..n]) <= multiset(s)
    ensures forall x :: x in sorted[..n] ==> x in s
    ensures forall x, y :: x in sorted[..n] && y in s && y !in sorted[..n] ==> x.score >= y.score
  {
    var r := sorted[..n];
    TopOfSorted(sorted, n);
    PrefixSubMultiset(sorted, n);
    forall x | x in r ensures x in s {
      assert x in multiset(r);
    }
    forall y | y in s ensures y in sorted {
      assert y in multiset(s);
    }
  }

  /** A prefix holds part of the multiset of the whole. */
  lemma PrefixSubMultiset<T>(s: seq<T>, n: nat)
    requires n <= |s|
    ensures multiset(s[..n]) <= multiset(s)
  {
    assert s == s[..n] + s[n..];
  }

  /** In a non-increasing sequence every entry of a prefix scores at least
      as high as every entry outside it. */
  lemma TopOfSorted(sorted: seq<Scored>, n: nat)
    requires n <= |sorted|
    requires NonIncreasing(sorted)
    ensures forall x, y :: x in sorted[..n] && y in sorted && y !in sorted[..n] ==> x.score >= y.score
  {
    forall x, y | x in sorted[..n] && y in sorted && y !in sorted[..n]
      ensures x.score >= y.score
    {
      var i :| 0 <= i < n && sorted[..n][i] == x;
      var j :| 0 <= j < |sorted| && sorted[j] == y;
      assert sorted[i] == x;
    }
  }

  /** In a ranked sequence every entry of a prefix precedes every entry
      outside it. */
  lemma TopOfRanked(sorted: seq<Scored>, n: nat, rank: int -> int)
    requires n <= |sorted|
    requires RankedBy(sorted, rank)
    ensures forall x, y :: x in sorted[..n] && y in sorted && y !in sorted[..n] ==> Precedes(x, y, rank)
  {
    forall x, y | x in sorted[..n] && y in sorted && y !in sorted[..n]
      ensures Precedes(x, y, rank)
    {
      var i :| 0 <= i < n && sorted[..n][i] == x;
      var j :| 0 <= j < |sorted| && sorted[j] == y;
      assert sorted[i] == x;
    }
  }

  /** A slice of the stable sort keeps the tie order: ranked input gives a
      ranked slice, and each kept entry precedes each entry left out, ties
      included. */
  lemma PrefixRanked(s: seq<Scored>, k: int, rank: int -> int)
    requires AscendingBy(s, rank)
    ensures RankedBy(Prefix(SortDesc(s), k), rank)
    ensures forall x, y :: x in Prefix(SortDesc(s), k) && y in s && y !in Prefix(SortDesc(s), k) ==>
      Precedes(x, y, rank)
  {
    SortDescRanked(s, rank);
    var sorted := SortDesc(s);
    var r := Prefix(sorted, k);
    forall i, j | 0 <= i < j < |r|
      ensures Precedes(r[i], r[j], rank)
    {
      assert r[i] == sorted[i] && r[j] == sorted[j];
    }
    TopOfRanked(sorted, |r|, rank);
    forall y | y in s ensures y in sorted {
      assert y in multiset(s);
    }
  }

  /** `NLargest` keeps the tie order: ranked input stays ranked, and at the
      cut-off the entry of lower rank is the one kept. */
  lemma NLargestRanked(n: int, s: seq<Scored>, rank: int -> int)
    requires AscendingBy(s, rank)
    ensures RankedBy(NLargest(n, s), rank)
    ensures forall x, y :: x in NLargest(n, s) && y in s && y !in NLargest(n, s) ==> Precedes(x, y, rank)
  {
    if n > 0 {
      PrefixRanked(s, n, rank);
    }
  }

  /** `r` lists, in order, the candidates of `c` that no candidate left
      out precedes: the head of `c` in the order `Precedes`. */
  ghost predicate IsTop(r: seq<Scored>, c: set<Scored>, rank: int -> int) {
    && (forall x :: x in r ==> x in c)
    && RankedBy(r, rank)
    && (forall x, y :: x in r && y in c && y !in r ==> Precedes(x, y, rank))
  }

  /** A top list is determined by its length: two top lists of the same
      candidates and the same length are equal, so ties at the cut-off
      leave no choice. */
  lemma {:induction false} TopUnique(a: seq<Scored>, b: seq<Scored>, c: set<Scored>, rank: int -> int)
    requires IsTop(a, c, rank) && IsTop(b, c, rank) && |a| == |b|
    ensures a == b
    decreases |a|
  {
    if a != [] {
      HeadsAgree(a, b, c, rank);
      TopTail(a, c, rank);
      TopTail(b, c, rank);
      TopUnique(a[1..], b[1..], c - {a[0]}, rank);
      assert a == [a[0]] + a[1..] && b == [b[0]] + b[1..];
    }
  }

  /** Two non-empty top lists of the same candidates start alike: each head
      precedes every other candidate, and `Precedes` is asymmetric. */
  lemma HeadsAgree(a: seq<Scored>, b: seq<Scored>, c: set<Scored>, rank: int -> int)
    requires IsTop(a, c, rank) && IsTop(b, c, rank) && a != [] && b != []
    ensures a[0] == b[0]
  {
    if a[0] != b[0] {
      HeadPrecedes(a, c, rank, b[0]);
      HeadPrecedes(b, c, rank, a[0]);
      assert false;
    }
  }

  /** The head of a top list precedes every other candidate. */
  lemma HeadPrecedes(a: seq<Scored>, c: set<Scored>, rank: int -> int, y: Scored)
    requires IsTop(a, c, rank) && a != [] && y in c && y != a[0]
    ensures Precedes(a[0], y, rank)
  {
    if y in a {
      var k :| 0 <= k < |a| && a[k] == y;
    }
  }

  /** Past its head, a top list is the top list of the other candidates. */
  lemma TopTail(a: seq<Scored>, c: set<Scored>, rank: int -> int)
    requires IsTop(a, c, rank) && a != []
    ensures IsTop(a[1..], c - {a[0]}, rank)
  {
    forall x | x in a[1..] ensures x != a[0] {
      var k :| 0 <= k < |a[1..]| && a[1..][k] == x;
      assert a[k + 1] == x;
    }
    forall i, j | 0 <= i < j < |a[1..]| ensures Precedes(a[1..][i], a[1..][j], rank) {
      assert a[1..][i] == a[i + 1] && a[1..][j] == a[j + 1];
    }
    forall x, y | x in a[1..] && y in c - {a[0]} && y !in a[1..]
      ensures Precedes(x, y, rank)
    {
      assert x in a;
      assert y !in a by {
        assert a == [a[0]] + a[1..];
      }
    }
  }
}
