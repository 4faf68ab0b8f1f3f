# rec_sys ranking and bookkeeping, in Dafny

This project models the non-numeric core of a small Python recommender
(`optimized_rec_sys.py`) and of its interactive nearest-neighbour script
(`interactive_rec_sys.py`):

- `DataStore.add_interaction`: accumulated (user, item) weights, per-item
  user sets, and per-item popularity counts (module `DataStore`).
- The bookkeeping of `MatrixFactorization.fit` (module `Factorization`):
  - the dense id → index maps;
  - the flattened list of `(user index, item index, rating)` samples;
  - the per-epoch shuffle and mini-batching, including the `ValueError` that
    `range` raises for a zero batch size.
- `MatrixFactorization.predict`'s 0.0 fallback for ids the last `fit` did
  not see (also in `Factorization`).
- `CandidateCache` (module `Caching`).
- `Recommender.recommend` (module `Recommending`): candidates are the known
  items the user has not seen; each is scored as `predict + 0.01 · popularity`;
  the call returns a stable top-K and writes the list through a cache keyed
  only by the user.
- `cosine_similarity_opt`'s zero-denominator guard and
  `get_top_k_recommendations` (module `Interactive`).

Shared pieces:
- `PySemantics` holds `None`, the two exceptions the code can raise, and
  Python's `s[:k]` slice, including negative `k`.
- `Ranking` holds the stable descending sort behind `sorted(..., reverse=True)`
  and `heapq.nlargest`. The standard library documents `heapq.nlargest` as
  `sorted(..., reverse=True)[:n]`, and it returns `[]` for `n <= 0`.

Scores are exact `real`s. The dot product of embedding rows, the vector norms
and the cosine's dot product are function parameters. State is threaded
explicitly: every operation takes the store, factorizer or cache and returns
the new one.

Python's iteration orders are parameters constrained to list each key
exactly once:
- the order of the interaction dict's keys;
- the order of the item set built at optimized_rec_sys.py:64;
- the order of each user's item dict.

`random.shuffle` is a parameter that returns some permutation of its argument.

Behaviour of the code that callers may not expect:
- `fit` on empty interactions does not raise. It builds empty maps and no samples.
- A zero batch size raises `ValueError` only if `epochs >= 1`. It is raised
  after `user_map`, `item_map`, `U` and `V` have already been replaced, so
  `fit` is not atomic.
- `recommend` with `K <= 0` is not an error. An uncached call returns `[]`.
  A cached call returns `cached[:K]`, so a negative `K` drops the tail of the
  cached list.
- Ties among candidates follow `item_map`'s iteration order, not the item
  identifier.
- The cache stores the top-K list, not the full ranking.
- `get_top_k_recommendations` with a negative `user_id` reads a row from the
  end, as numpy does, but excludes no row. The target user can then appear in
  its own result.

## Model

| member | source | states |
|---|---|---|
| `PySemantics.Prefix` | optimized_rec_sys.py:142 | `s[:k]` has `min(k, len)` elements for `k >= 0` and `max(0, len + k)` for `k < 0`, and is a prefix of `s` |
| `Ranking.SortDesc` | interactive_rec_sys.py:42 | the sort returns a permutation of its input (same multiset) in non-increasing score order |
| `Ranking.SortDescRanked` | interactive_rec_sys.py:42 | the sort is stable: if the input's ids ascend by a rank, the output is ordered by descending score and then by ascending rank |
| `Ranking.NLargest` | optimized_rec_sys.py:155 | `nlargest(n, s)` has `min(n, len)` entries (none for `n <= 0`), is a sub-multiset of `s`, is non-increasing, and no omitted entry scores above a kept one |
| `Ranking.PrefixOfSortDesc` | interactive_rec_sys.py:42 | every slice `sorted(...)[:k]`, negative `k` included, is non-increasing, a sub-multiset of the input, and scores at least as high as every input entry it leaves out |
| `Ranking.PrefixRanked` | interactive_rec_sys.py:42 | a slice of the stable sort of rank-ordered input is ordered by score then rank, and each kept entry precedes each entry left out: higher score, or equal score and lower rank |
| `Ranking.NLargestRanked` | optimized_rec_sys.py:155 | `nlargest` keeps the input order among equal scores, and at the cut-off the earlier of two tied entries is the one kept |
| `Ranking.TopUnique` | optimized_rec_sys.py:155 | two lists of the same length that each hold, in order, candidates no omitted candidate precedes are equal: the top-n is determined, ties included |
| `DataStore.AddInteraction` | optimized_rec_sys.py:26-29 | the (u, i) weight becomes its old value (0 if absent) plus `v`, and every other pair keeps its weight and presence; `u` joins the users of `i`; the popularity of `i` rises by exactly 1 whatever `v` is; other items are untouched |
| `DataStore.AddInteractionUsersIdempotent` | optimized_rec_sys.py:28 | recording the same pair again leaves the item's user set unchanged |
| `DataStore.EmptyConsistent` | optimized_rec_sys.py:18-21 | a new store satisfies the store invariant |
| `DataStore.AddInteractionConsistent` | optimized_rec_sys.py:26-29 | `add_interaction` preserves the invariant: a pair is stored iff the user is among the item's users, items with users are items with counts, and each count is at least the number of distinct users |
| `DataStore.ReplayPopularity` | optimized_rec_sys.py:29 | after a sequence of calls, an item's popularity grew by the number of calls naming it |
| `DataStore.ReplayWeight` | optimized_rec_sys.py:27 | after a sequence of calls, a pair's weight grew by the sum of the values recorded for it |
| `DataStore.ReplayUsers` | optimized_rec_sys.py:28 | after a sequence of calls, an item's users grew by exactly the users of the calls naming it |
| `Factorization.UntrainedValid` | optimized_rec_sys.py:57-60 | a new factorizer (empty maps, no tables) is well formed |
| `Factorization.IndexMap` | optimized_rec_sys.py:66-67 | the index map is a bijection from the listed ids onto `0 .. n-1` that sends each id to its position |
| `Factorization.BuildSamples` | optimized_rec_sys.py:75-78 | every sample names a stored pair with its rating and has both indices within the tables; no two samples share a pair; every stored pair has a sample |
| `Factorization.UserSamples` | optimized_rec_sys.py:77-78 | one sample is made for each item of the user's row, with that item's index and rating, and no item is repeated |
| `Factorization.IndexMapCount` | optimized_rec_sys.py:66-67 | an index map has exactly as many keys as its list has entries |
| `Factorization.Batches` | optimized_rec_sys.py:82-83 | the slices `s[i:i+size]` concatenate back to `s`, are non-empty, hold at most `size` samples, and only the last may be shorter |
| `Factorization.BatchesLocate` | optimized_rec_sys.py:82-83 | sample `q·size + p` is element `p` of batch `q`, so each sample lies in exactly one batch |
| `Factorization.EpochBatches` | optimized_rec_sys.py:82-83 | a zero batch size raises `ValueError`; a negative one yields no batches; a positive one yields the slices of `Batches`, which partition the shuffled list |
| `Factorization.Schedule` | optimized_rec_sys.py:80-83 | one batch list per epoch; for a positive batch size each epoch's list is the contiguous slicing `Batches` of a permutation of the samples, and for a negative one it is empty; `ValueError` exactly when an epoch runs with batch size 0 |
| `Factorization.Fit` | optimized_rec_sys.py:62-83 | the user map's keys are the interaction keys and the item map's keys are the distinct items, both dense bijections; the sample list has one in-bounds triple per stored pair; the schedule has `max(0, epochs)` epochs, each the contiguous slicing `Batches` of a permutation of the samples (empty for a negative batch size), or the batching raises `ValueError` exactly when `epochs > 0` and batch size is 0 |
| `Factorization.Predict` | optimized_rec_sys.py:99-102 | 0.0 when the user or the item is not in the maps, otherwise the dot product of that user's and that item's rows, always in bounds |
| `Factorization.PredictDeterministic` | optimized_rec_sys.py:102 | a prediction depends only on the two stored rows |
| `Factorization.PredictUntrained` | optimized_rec_sys.py:99-101 | before any `fit` every prediction is 0.0 |
| `Caching.Get` | optimized_rec_sys.py:114-115 | `get` returns the entry of the user, or `None` when there is none |
| `Caching.Set` | optimized_rec_sys.py:117-118 | after `set(u, c)`, `get(u)` is `c` and every other user's entry is unchanged |
| `Caching.GetAfterWrites` | optimized_rec_sys.py:114-118 | after any sequence of `set` calls, `get(u)` is the list of the last call for `u`, or the earlier entry if no call names `u` |
| `Caching.GetNeverSet` | optimized_rec_sys.py:114-115 | a user never set reads as `None` |
| `Recommending.ScoresFrom` | optimized_rec_sys.py:147-153 | each entry is a known unseen item with its score `predict + 0.01 · popularity`; every unseen item from the position on has its entry; entries keep item-map order |
| `Recommending.Scores` | optimized_rec_sys.py:144-153 | the score list holds exactly one entry per unseen known item, with its score, in item-map order |
| `Recommending.Fresh` | optimized_rec_sys.py:144-155 | an uncached top-K has `min(K, #candidates)` entries (none for `K <= 0`); each entry is an unseen known item with its score; the order is non-increasing with ties in item-map order; every returned entry precedes every omitted candidate (higher score, or equal score and earlier in item-map order) |
| `Recommending.TopKUnique` | optimized_rec_sys.py:144-155 | the top-K properties above leave no choice: two lists that meet them for the same call are equal |
| `Recommending.Recommend` | optimized_rec_sys.py:138-157 | a non-empty cached list is returned as `cached[:K]` with nothing changed; otherwise the result is the top-K above (unique by `TopKUnique`), it is stored for the user, and no other entry changes |
| `Recommending.RecommendRepeat` | optimized_rec_sys.py:138-157 | two consecutive calls with the same `K` return identical lists |
| `Recommending.RecommendEmptyEntryRecomputes` | optimized_rec_sys.py:140-141 | an empty cached list is falsy and is recomputed |
| `Recommending.RecommendStaleAfterAdd` | optimized_rec_sys.py:140-142 | `add_interaction` does not invalidate a cache entry: the old list comes back, even with an item the user has now seen |
| `Recommending.RecommendLargerKUnderReturns` | optimized_rec_sys.py:140-142 | after an uncached call with `K1` that found items, a call with `K2 >= K1` returns the same `K1`-bounded list |
| `Recommending.RecommendColdStart` | optimized_rec_sys.py:144-155 | an uncached call for a user with no interactions gets `min(K, n)` items for the `n` known items |
| `Recommending.UnderReturnExample` | optimized_rec_sys.py:140-156 | with two candidates and any dot product, `recommend(7, 1)` then `recommend(7, 2)` returns one item, while an uncached call would return two |
| `Recommending.FullRanking` | optimized_rec_sys.py:155 | the full ranking is the stable descending sort of the score list |
| `Recommending.RecommendFullRanking` | optimized_rec_sys.py:138-157 | with full rankings cached, each call returns exactly the fresh top-K (equal to `Fresh`) and keeps the cache current |
| `Recommending.FullRankingNoUnderReturn` | optimized_rec_sys.py:138-157 | with full rankings cached, a call after any earlier call returns the fresh top-K for its own `K` |
| `Interactive.Cosine` | interactive_rec_sys.py:21-25 | 0.0 when the product of the norms is 0; otherwise the result times that product is the dot product |
| `Interactive.CosineSymmetric` | interactive_rec_sys.py:21-25 | with a symmetric dot product, `cos(a, b) == cos(b, a)` |
| `Interactive.CosineBounded` | interactive_rec_sys.py:21-25 | with non-negative norms and the Cauchy-Schwarz bound, the similarity lies in [-1, 1] |
| `Interactive.SimsFrom` | interactive_rec_sys.py:35-40 | one `(row, similarity)` pair per row except `user_id`, in ascending row order, `n - 1` pairs for an in-range `user_id` |
| `Interactive.GetTopK` | interactive_rec_sys.py:31-42 | `IndexError` exactly outside `-n .. n-1`. For `0 <= user_id < n`: `min(k, n-1)` users for `k >= 0`; `user_id` never returned; each other row at most once, with its similarity; non-increasing similarity with ties in ascending index; every returned user precedes every omitted one (more similar, or as similar and of lower index). For `-n <= user_id < 0`: the same top list over all `n` rows, ranked by similarity to row `n + user_id`, with no row excluded |
| `Interactive.TopUsersUnique` | interactive_rec_sys.py:42 | the properties above leave no choice: two lists that meet them for the same call are equal |
| `Interactive.NegativeUserIdNotExcluded` | interactive_rec_sys.py:33-38 | a negative `user_id` excludes no row, so with `k >= n` the target row appears in its own result |

## Left out

- Gradient arithmetic and updates (optimized_rec_sys.py:85-97): float32 numerics and numpy's last-write-wins fancy indexing. `U` and `V` are opaque rows given to `Fit`.
- Random initialisation of `U` and `V` (optimized_rec_sys.py:72-73): randomness. The row width `k` is not modelled either.
- `random.shuffle` (optimized_rec_sys.py:81): randomness. It is a parameter that returns a permutation.
- The dot product, the vector norms and `np.linalg.norm`: floating point and foreign library calls. They are function parameters returning `real`.
- Floating-point rounding, NaN and infinities: scores are exact reals. A NaN score would break the ordering the sorts rely on.
- `add_item_feature` and `build_feature_matrix` (optimized_rec_sys.py:31-38): scoring does not use them.
- `generate_dataset`, both `stress_test` functions, `main` and the `__main__` demos: random data, timing and console I/O.
- Python's hashing and iteration order: they are given as duplicate-free sequences.
- Default arguments (`value=1.0` of `add_interaction`, `epochs=5` of `fit`, `K=10` of `recommend`, and the constructor defaults `k=32`, `lr=0.01`, `reg=0.01`, `batch_size=256`): every model operation takes its arguments explicitly.
- Python's list aliasing: an uncached `recommend` returns the very list object it stores with `set` (a hit returns a fresh slice), and `get` returns the stored object, so a caller that mutates a returned list changes what later cache hits return (and `clear()` makes the entry falsy, so it is recomputed). Lists are values here, so `RecommendRepeat` and `GetAfterWrites` hold for callers that never mutate a returned list.
- Identifiers are `int`, as in the demos. The code only compares them for equality.
- `Factorization.Fit`: the `ValueError` that `np.random.normal` raises for a negative row width `k` (optimized_rec_sys.py:72) is not modelled, since the row width is not; it would come after the index maps were replaced.
- `Interactive.Cosine`: similarity 1 for a vector with itself is not stated. It depends on `norm(a)² = dot(a, a)`, a fact of the numerics left out.

## Findings

| source | as written | input that shows it | evidently intended | confidence | as-written member | corrected member |
|---|---|---|---|---|---|---|
| optimized_rec_sys.py:140-142 | A cache hit returns `cached[:K]` of a list computed for an earlier `K`, because the cache is keyed by the user only | two unseen items, a cold user 7: `recommend(7, 1)` then `recommend(7, 2)` returns one item | the second call returns the top 2, as an uncached call would | medium, not executed | `Recommending.UnderReturnExample` | `Recommending.FullRankingNoUnderReturn` |
