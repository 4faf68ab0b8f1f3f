/** `Recommender.recommend` of optimized_rec_sys.py: scores every item the
    factorizer knows and the user has not seen, keeps the top `K`, and
    writes the list through a cache keyed by the user alone. */
module Recommending {
  import opened PySemantics
  import opened Ranking
  import opened DataStore
  import opened Factorization
  import opened Caching

  /** The recommender's state: the store, the fitted factorizer and the cache. */
  datatype Recommender = Recommender(store: Store, mf: Factorizer, cache: CandidateCache)

  /** The weight of one interaction count in a score. */
  const PopularityWeight: real := 0.01

  /** `mf.predict(u, item) + 0.01 * popularity.get(item, 0)`. */
  function Score(store: Store, mf: Factorizer, u: UserId, item: ItemId, dot: (Row, Row) -> real): real
    requires Valid(mf)
  {
    Predict(mf, u, item, dot) + PopularityWeight * (Popularity(store, item) as real)
  }

  /** The candidates of `u`: the items the factorizer knows that `u` has not seen. */
  function Unseen(store: Store, mf: Factorizer, u: UserId): set<ItemId> {
    set i | i in mf.itemMap && i !in Seen(store, u)
  }

  /** Position of an item in `item_map`'s iteration order; -1 for unknown items. */
  function ItemRank(mf: Factorizer): int -> int {
    x => if x in mf.itemMap then mf.itemMap[x] as int else -1
  }

  /** The scoring loop of `recommend` from position `j` of the item order on. */
  function ScoresFrom(store: Store, mf: Factorizer, u: UserId, dot: (Row, Row) -> real, j: nat): (r: seq<Scored>)
    requires Valid(mf) && j <= |mf.items|
    ensures forall x :: x in r ==>
      x.id in mf.itemMap && mf.itemMap[x.id] >= j && x.id !in Seen(store, u)
      && x.score == Score(store, mf, u, x.id, dot)
    ensures forall k :: j <= k < |mf.items| && mf.items[k] !in Seen(store, u) ==>
      Scored(mf.items[k], Score(store, mf, u, mf.items[k], dot)) in r
    ensures AscendingBy(r, ItemRank(mf))
    decreases |mf.items| - j
  {
    if j == |mf.items| then []
    else
      var item := mf.items[j];
      var rest := ScoresFrom(store, mf, u, dot, j + 1);
      if item in Seen(store, u) then rest
      else
        var x := Scored(item, Score(store, mf, u, item, dot));
        AscendingCons(x, rest, ItemRank(mf));
        [x] + rest
  }

  /** The list `scores` that `recommend` builds: exactly one entry per
      candidate, carrying its score, in item-map order. */
  function Scores(store: Store, mf: Factorizer, u: UserId, dot: (Row, Row) -> real): (r: seq<Scored>)
    requires Valid(mf)
    ensures forall x :: x in r <==> x.id in Unseen(store, mf, u) && x.score == Score(store, mf, u, x.id, dot)
    ensures Ids(r) == Unseen(store, mf, u)
    ensures |r| == |Unseen(store, mf, u)|
    ensures AscendingBy(r, ItemRank(mf))
  {
    var r := ScoresFrom(store, mf, u, dot, 0);
    forall x: Scored | x.id in Unseen(store, mf, u) && x.score == Score(store, mf, u, x.id, dot)
      ensures x in r
    {
      assert mf.items[mf.itemMap[x.id]] == x.id;
    }
    forall i | i in Unseen(store, mf, u) ensures i in Ids(r) {
      assert Scored(i, Score(store, mf, u, i, dot)) in r;
    }
    DistinctIdsCount(r, ItemRank(mf));
    r
  }

  /** Entries whose ids ascend by some rank have distinct ids, so there are
      as many entries as ids. */
  lemma {:induction false} DistinctIdsCount(s: seq<Scored>, rank: int -> int)
    requires AscendingBy(s, rank)
    ensures |Ids(s)| == |s|
  {
    if s != [] {
      DistinctIdsCount(s[1..], rank);
      assert Ids(s) == {s[0].id} + Ids(s[1..]);
      assert s[0].id !in Ids(s[1..]);
    }
  }

  /** What an uncached `recommend(u, K)` promises of its list: `min(K, n)`
      entries for `n` candidates (none for `K <= 0`), each an unseen known
      item with its score, in descending score order with ties in item-map
      order, and each returned entry preceding each omitted candidate: a
      higher score, or an equal score and an earlier place in item-map
      order. */
  ghost predicate IsTopK(store: Store, mf: Factorizer, u: UserId, K: int, dot: (Row, Row) -> real, items: seq<Scored>)
    requires Valid(mf)
  {
    && |items| == (if K <= 0 then 0 else Min(K, |Unseen(store, mf, u)|))
    && (forall x :: x in items ==> x.id in Unseen(store, mf, u) && x.score == Score(store, mf, u, x.id, dot))
    && RankedBy(items, ItemRank(mf))
    && (forall x, i :: x in items && i in Unseen(store, mf, u) && i !in Ids(items) ==>
          Precedes(x, Scored(i, Score(store, mf, u, i, dot)), ItemRank(mf)))
  }

  /** The candidates of `u` with their scores. */
  ghost function Candidates(store: Store, mf: Factorizer, u: UserId, dot: (Row, Row) -> real): set<Scored>
    requires Valid(mf)
  {
    set i | i in Unseen(store, mf, u) :: Scored(i, Score(store, mf, u, i, dot))
  }

  /** A list meeting `IsTopK` is the top list of the scored candidates. */
  lemma TopKIsTop(store: Store, mf: Factorizer, u: UserId, K: int, dot: (Row, Row) -> real, items: seq<Scored>)
    requires Valid(mf) && IsTopK(store, mf, u, K, dot, items)
    ensures IsTop(items, Candidates(store, mf, u, dot), ItemRank(mf))
  {
    var c := Candidates(store, mf, u, dot);
    forall x | x in items ensures x in c {
      assert x == Scored(x.id, Score(store, mf, u, x.id, dot));
    }
    forall x, y | x in items && y in c && y !in items
      ensures Precedes(x, y, ItemRank(mf))
    {
      var i :| i in Unseen(store, mf, u) && y == Scored(i, Score(store, mf, u, i, dot));
    }
  }

  /** `IsTopK` leaves no choice, ties at the cut-off included: two lists
      that meet it for the same call are equal, so every such list is the
      one `heapq.nlargest` returns. */
  lemma TopKUnique(store: Store, mf: Factorizer, u: UserId, K: int, dot: (Row, Row) -> real, a: seq<Scored>, b: seq<Scored>)
    requires Valid(mf)
    requires IsTopK(store, mf, u, K, dot, a) && IsTopK(store, mf, u, K, dot, b)
    ensures a == b
  {
    TopKIsTop(store, mf, u, K, dot, a);
    TopKIsTop(store, mf, u, K, dot, b);
    TopUnique(a, b, Candidates(store, mf, u, dot), ItemRank(mf));
  }

  /** `heapq.nlargest(K, scores, key=score)`: the freshly computed top-K list. */
  function Fresh(store: Store, mf: Factorizer, u: UserId, K: int, dot: (Row, Row) -> real): (r: seq<Scored>)
    requires Valid(mf)
    ensures IsTopK(store, mf, u, K, dot, r)
  {
    var scores := Scores(store, mf, u, dot);
    var r := NLargest(K, scores);
    NLargestRanked(K, scores, ItemRank(mf));
    forall x, i | x in r && i in Unseen(store, mf, u) && i !in Ids(r)
      ensures Precedes(x, Scored(i, Score(store, mf, u, i, dot)), ItemRank(mf))
    {
      var y := Scored(i, Score(store, mf, u, i, dot));
      assert y in scores && y !in r;
    }
    r
  }

  /** Cold start: an uncached call for a user with no interactions returns
      `min(K, n)` items for the `n` items the factorizer knows. */
  lemma RecommendColdStart(rec: Recommender, u: UserId, K: int, dot: (Row, Row) -> real)
    requires Valid(rec.mf)
    requires u !in rec.store.interactions && !Hit(rec.cache, u)
    ensures |Recommend(rec, u, K, dot).items| == if K <= 0 then 0 else Min(K, |rec.mf.items|)
  {
    assert Seen(rec.store, u) == {};
    assert Unseen(rec.store, rec.mf, u) == rec.mf.itemMap.Keys;
    IndexMapCount(rec.mf.itemMap, rec.mf.items);
  }

  /** `if cached:` — the cache holds a list for `u` and the list is not empty. */
  predicate Hit(c: CandidateCache, u: UserId) {
    var cached := Get(c, u);
    cached.Some? && |cached.value| > 0
  }

  /** The state after a call, and the list it returned. */
  datatype Reply = Reply(rec: Recommender, items: seq<Scored>)

  /** `recommend(u, K)`: a non-empty cached list is sliced with `[:K]` and
      returned without looking at the store; otherwise the top-K list is
      computed, stored for `u` whatever `K` was, and returned. */
  function Recommend(rec: Recommender, u: UserId, K: int, dot: (Row, Row) -> real): (r: Reply)
    requires Valid(rec.mf)
    ensures r.rec.store == rec.store && r.rec.mf == rec.mf
    ensures Hit(rec.cache, u) ==> r.rec == rec && r.items == Prefix(rec.cache.entries[u], K)
    ensures !Hit(rec.cache, u) ==> IsTopK(rec.store, rec.mf, u, K, dot, r.items)
    ensures !Hit(rec.cache, u) ==> Get(r.rec.cache, u) == Some(r.items)
    ensures forall v :: v != u ==> Get(r.rec.cache, v) == Get(rec.cache, v)
  {
    var cached := Get(rec.cache, u);
    if cached.Some? && |cached.value| > 0 then Reply(rec, Prefix(cached.value, K))
    else
      var topk := Fresh(rec.store, rec.mf, u, K, dot);
      Reply(rec.(cache := Set(rec.cache, u, topk)), topk)
  }

  /** Two consecutive calls with the same `K` return the same list: a stored
      list is never longer than the `K` it was computed for, and an empty
      one is recomputed from an unchanged store. */
  lemma RecommendRepeat(rec: Recommender, u: UserId, K: int, dot: (Row, Row) -> real)
    requires Valid(rec.mf)
    ensures Recommend(Recommend(rec, u, K, dot).rec, u, K, dot).items == Recommend(rec, u, K, dot).items
  {
    var first := Recommend(rec, u, K, dot);
    if !Hit(rec.cache, u) && |first.items| > 0 {
      PrefixOfShort(first.items, K);
    }
  }

  /** A cached entry that is an empty list counts as a miss and is recomputed. */
  lemma RecommendEmptyEntryRecomputes(rec: Recommender, u: UserId, K: int, dot: (Row, Row) -> real)
    requires Valid(rec.mf)
    requires Get(rec.cache, u) == Some([])
    ensures Recommend(rec, u, K, dot).items == Fresh(rec.store, rec.mf, u, K, dot)
  {
  }

  /** `add_interaction` does not touch the cache: after it, a user with a
      non-empty entry gets the old list back, even an item just recorded as seen. */
  lemma RecommendStaleAfterAdd(rec: Recommender, u: UserId, i: ItemId, v: real, K: int, dot: (Row, Row) -> real)
    requires Valid(rec.mf)
    requires Hit(rec.cache, u)
    requires exists x :: x in Prefix(rec.cache.entries[u], K) && x.id == i
    ensures var after := rec.(store := AddInteraction(rec.store, u, i, v));
      && Recommend(after, u, K, dot).items == Prefix(rec.cache.entries[u], K)
      && exists x :: x in Recommend(after, u, K, dot).items && x.id in Seen(after.store, u)
  {
  }

  /** As written, a hit ignores `K`: after a call with `K1` that found
      something, any call with `K2 >= K1` returns the same `K1`-bounded list. */
  lemma RecommendLargerKUnderReturns(rec: Recommender, u: UserId, K1: int, K2: int, dot: (Row, Row) -> real)
    requires Valid(rec.mf)
    requires !Hit(rec.cache, u) && K1 <= K2
    requires |Recommend(rec, u, K1, dot).items| > 0
    ensures Recommend(Recommend(rec, u, K1, dot).rec, u, K2, dot).items == Recommend(rec, u, K1, dot).items
  {
    PrefixOfShort(Recommend(rec, u, K1, dot).items, K2);
  }

  /** Two items no one has seen. */
  function TwoItems(): (f: Factorizer)
    ensures Valid(f) && |f.items| == 2
  {
    var f := Factorizer([], [10, 20], map[], map[10 := 0, 20 := 1], [], [[], []]);
    assert f.items[0] == 10 && f.items[1] == 20;
    f
  }

  /** A user of the empty store has both items as candidates. */
  lemma TwoCandidates()
    ensures |Unseen(Empty, TwoItems(), 7)| == 2
  {
    var mf := TwoItems();
    assert Unseen(Empty, mf, 7) == {10, 20} by {
      assert 10 in mf.itemMap && 20 in mf.itemMap;
    }
  }

  /** The under-return on concrete data, whatever the dot product: with an
      empty store, `recommend(7, 1)` then `recommend(7, 2)` yields one item
      while two candidates exist. */
  lemma UnderReturnExample(dot: (Row, Row) -> real)
    ensures var rec := Recommender(Empty, TwoItems(), EmptyCache);
      var second := Recommend(Recommend(rec, 7, 1, dot).rec, 7, 2, dot);
      |second.items| == 1 && |Fresh(Empty, TwoItems(), 7, 2, dot)| == 2
  {
    var mf := TwoItems();
    var rec := Recommender(Empty, mf, EmptyCache);
    TwoCandidates();
    assert !Hit(rec.cache, 7);
    var first := Recommend(rec, 7, 1, dot);
    assert |first.items| == 1;
    RecommendLargerKUnderReturns(rec, 7, 1, 2, dot);
  }

  /** The cache policy without the under-return: the entry holds the full
      ranking, and every call slices it. Non-positive `K` gives no items. */
  function RecommendFullRanking(rec: Recommender, u: UserId, K: int, dot: (Row, Row) -> real): (r: Reply)
    requires Valid(rec.mf)
    ensures r.rec.store == rec.store && r.rec.mf == rec.mf
    ensures CacheCurrent(rec, dot) ==> CacheCurrent(r.rec, dot)
    ensures CacheCurrent(rec, dot) ==> IsTopK(rec.store, rec.mf, u, K, dot, r.items)
    ensures CacheCurrent(rec, dot) ==> r.items == Fresh(rec.store, rec.mf, u, K, dot)
  {
    var cached := Get(rec.cache, u);
    var full := if cached.Some? && |cached.value| > 0 then cached.value else FullRanking(rec.store, rec.mf, u, dot);
    var next := if cached.Some? && |cached.value| > 0 then rec else rec.(cache := Set(rec.cache, u, full));
    var items := if K <= 0 then [] else Prefix(full, K);
    assert CacheCurrent(rec, dot) ==> full == FullRanking(rec.store, rec.mf, u, dot);
    assert CacheCurrent(rec, dot) ==> items == Fresh(rec.store, rec.mf, u, K, dot);
    Reply(next, items)
  }

  /** The full ranking of `u`'s candidates. */
  function FullRanking(store: Store, mf: Factorizer, u: UserId, dot: (Row, Row) -> real): (r: seq<Scored>)
    requires Valid(mf)
    ensures r == SortDesc(Scores(store, mf, u, dot))
  {
    var scores := Scores(store, mf, u, dot);
    assert NLargest(|scores|, scores) == (if |scores| == 0 then [] else SortDesc(scores));
    NLargest(|scores|, scores)
  }

  /** Every cached entry is the full ranking the current store and
      factorizer give: true of an empty cache, kept by `RecommendFullRanking`,
      and broken by `add_interaction` like any other state change. */
  ghost predicate CacheCurrent(rec: Recommender, dot: (Row, Row) -> real)
    requires Valid(rec.mf)
  {
    forall v :: v in rec.cache.entries ==> rec.cache.entries[v] == FullRanking(rec.store, rec.mf, v, dot)
  }

  /** With full rankings cached, a later call with a larger `K` is no longer
      cut short: each call returns what an uncached computation would. */
  lemma FullRankingNoUnderReturn(rec: Recommender, u: UserId, K1: int, K2: int, dot: (Row, Row) -> real)
    requires Valid(rec.mf) && CacheCurrent(rec, dot)
    ensures var first := RecommendFullRanking(rec, u, K1, dot);
      RecommendFullRanking(first.rec, u, K2, dot).items == Fresh(rec.store, rec.mf, u, K2, dot)
  {
    var first := RecommendFullRanking(rec, u, K1, dot);
    assert CacheCurrent(first.rec, dot);
  }
}
