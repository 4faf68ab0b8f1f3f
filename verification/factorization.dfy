/** The bookkeeping of `MatrixFactorization` in optimized_rec_sys.py: the
    dense id -> index maps `fit` builds, the flattened sample list, the
    per-epoch mini-batches, and `predict`'s fallback for unseen ids.

    The embedding tables `U` and `V` are opaque rows: their random
    initialisation and the gradient updates are not modelled, and the dot
    product is a parameter. */
module Factorization {
  import opened PySemantics
  import opened DataStore

  type Row = seq<real>

  /** The argument of `fit`: user -> item -> weight. */
  type Interactions = map<UserId, map<ItemId, real>>

  /** One training triple `(user_map[u], item_map[i], rating)`. */
  datatype Sample = Sample(user: nat, item: nat, rating: real)

  /** The factorizer's state after a `fit`: the ids in index order, the
      index maps built from them, and the two embedding tables. */
  datatype Factorizer = Factorizer(
    users: seq<UserId>,
    items: seq<ItemId>,
    userMap: map<UserId, nat>,
    itemMap: map<ItemId, nat>,
    U: seq<Row>,
    V: seq<Row>)

  /** A freshly constructed factorizer: empty maps, no tables. */
  const Untrained: Factorizer := Factorizer([], [], map[], map[], [], [])

  ghost predicate Distinct(s: seq<int>) {
    forall i, j :: 0 <= i < j < |s| ==> s[i] != s[j]
  }

  /** `order` lists every element of `keys` exactly once: how Python
      iterates a dict's keys or a set. */
  ghost predicate Enumerates(order: seq<int>, keys: set<int>) {
    Distinct(order) && forall x :: x in order <==> x in keys
  }

  /** `m` is the dense index map of `order`: a bijection from the elements of
      `order` onto `0 .. |order| - 1` sending each element to its position. */
  ghost predicate IndexesOf(m: map<int, nat>, order: seq<int>) {
    && (forall x :: x in m <==> x in order)
    && (forall j :: 0 <= j < |order| ==> m[order[j]] == j)
    && (forall x :: x in m ==> m[x] < |order| && order[m[x]] == x)
  }

  /** Every index map agrees with its order list and every index has a row. */
  ghost predicate Valid(f: Factorizer) {
    && Distinct(f.users) && Distinct(f.items)
    && IndexesOf(f.userMap, f.users)
    && IndexesOf(f.itemMap, f.items)
    && |f.U| == |f.users|
    && |f.V| == |f.items|
  }

  lemma UntrainedValid()
    ensures Valid(Untrained)
  {
  }

  /** An index map has one key per listed element. */
  lemma IndexMapCount(m: map<int, nat>, order: seq<int>)
    requires Distinct(order) && IndexesOf(m, order)
    ensures |m.Keys| == |order|
  {
    forall x ensures x in m.Keys <==> x in Elements(order) {
      assert x in m <==> x in order;
    }
    assert m.Keys == Elements(order);
    DistinctCount(order);
  }

  function Elements(order: seq<int>): set<int> {
    set x | x in order
  }

  /** A list without repeats has as many elements as entries. */
  lemma {:induction false} DistinctCount(order: seq<int>)
    requires Distinct(order)
    ensures |Elements(order)| == |order|
  {
    if order != [] {
      DistinctCount(order[1..]);
      assert Elements(order) == {order[0]} + Elements(order[1..]);
      assert order[0] !in Elements(order[1..]);
    }
  }

  /** `{x: idx for idx, x in enumerate(order)}`. */
  function IndexMap(order: seq<int>): (m: map<int, nat>)
    requires Distinct(order)
    ensures IndexesOf(m, order)
  {
    var m := map j | 0 <= j < |order| :: order[j] := j;
    assert forall j :: 0 <= j < |order| ==> order[j] in m && m[order[j]] == j;
    m
  }

  /** The distinct items of the interactions: the item set `fit` builds. */
  function ItemsOf(interactions: Interactions): set<ItemId> {
    set u, i | u in interactions && i in interactions[u] :: i
  }

  /** Sample `x` is the triple of a stored pair: both indices are in the
      bounds of the tables and name a pair with that rating. */
  ghost predicate Describes(interactions: Interactions, users: seq<UserId>, items: seq<ItemId>, x: Sample) {
    && x.user < |users|
    && x.item < |items|
    && users[x.user] in interactions
    && items[x.item] in interactions[users[x.user]]
    && x.rating == interactions[users[x.user]][items[x.item]]
  }

  /** No two samples share a (user index, item index) pair. */
  ghost predicate NoDuplicatePairs(samples: seq<Sample>) {
    forall a, b :: 0 <= a < b < |samples| ==>
      samples[a].user != samples[b].user || samples[a].item != samples[b].item
  }

  /** The sample loop of `fit`: one triple per stored (user, item) pair, in
      the order users come and, within a user, in that user's dict order. */
  method BuildSamples(
    interactions: Interactions,
    users: seq<UserId>,
    items: seq<ItemId>,
    rowOrder: map<UserId, seq<ItemId>>,
    userMap: map<UserId, nat>,
    itemMap: map<ItemId, nat>)
    returns (samples: seq<Sample>)
    requires Enumerates(users, interactions.Keys)
    requires Enumerates(items, ItemsOf(interactions))
    requires forall u :: u in interactions ==> u in rowOrder && Enumerates(rowOrder[u], interactions[u].Keys)
    requires IndexesOf(userMap, users) && IndexesOf(itemMap, items)
    ensures forall k :: 0 <= k < |samples| ==> Describes(interactions, users, items, samples[k])
    ensures NoDuplicatePairs(samples)
    ensures forall u, i :: u in interactions && i in interactions[u] ==>
      i in itemMap && Sample(userMap[u], itemMap[i], interactions[u][i]) in samples
  {
    samples := [];
    var j := 0;
    while j < |users|
      invariant 0 <= j <= |users|
      invariant forall k :: 0 <= k < |samples| ==> Describes(interactions, users, items, samples[k]) && samples[k].user < j
      invariant NoDuplicatePairs(samples)
      invariant forall u, i :: u in interactions && i in interactions[u] && userMap[u] < j ==>
        i in itemMap && Sample(userMap[u], itemMap[i], interactions[u][i]) in samples
    {
      var u := users[j];
      var row := UserSamples(interactions, users, items, j, rowOrder[u], itemMap);
      AppendNoDuplicatePairs(samples, row, j);
      var next := samples + row;
      forall u', i | u' in interactions && i in interactions[u'] && userMap[u'] < j + 1
        ensures i in itemMap && Sample(userMap[u'], itemMap[i], interactions[u'][i]) in next
      {
        if userMap[u'] == j {
          assert u' == u;
        }
      }
      samples := next;
      j := j + 1;
    }
    forall u, i | u in interactions && i in interactions[u]
      ensures i in itemMap && Sample(userMap[u], itemMap[i], interactions[u][i]) in samples
    {
      assert userMap[u] < |users|;
    }
  }

  /** The inner sample loop of `fit`: the triples of user `users[j]`, in the
      order `order` lists that user's items. */
  method UserSamples(
    interactions: Interactions,
    users: seq<UserId>,
    items: seq<ItemId>,
    j: nat,
    order: seq<ItemId>,
    itemMap: map<ItemId, nat>)
    returns (row: seq<Sample>)
    requires j < |users| && users[j] in interactions
    requires Enumerates(items, ItemsOf(interactions))
    requires Enumerates(order, interactions[users[j]].Keys)
    requires IndexesOf(itemMap, items)
    ensures forall k :: 0 <= k < |row| ==> Describes(interactions, users, items, row[k]) && row[k].user == j
    ensures NoDuplicatePairs(row)
    ensures forall i :: i in interactions[users[j]] ==>
      i in itemMap && Sample(j, itemMap[i], interactions[users[j]][i]) in row
  {
    var u := users[j];
    row := [];
    var m := 0;
    while m < |order|
      invariant 0 <= m <= |order| && |row| == m
      invariant forall k :: 0 <= k < m ==>
        order[k] in interactions[u] && order[k] in itemMap
        && row[k] == Sample(j, itemMap[order[k]], interactions[u][order[k]])
    {
      var it := order[m];
      assert it in ItemsOf(interactions) by {
        assert u in interactions && it in interactions[u];
      }
      row := row + [Sample(j, itemMap[it], interactions[u][it])];
      m := m + 1;
    }
    forall k | 0 <= k < |row|
      ensures Describes(interactions, users, items, row[k])
    {
      assert items[itemMap[order[k]]] == order[k];
    }
    forall a, b | 0 <= a < b < |row|
      ensures row[a].user != row[b].user || row[a].item != row[b].item
    {
      assert items[row[a].item] == order[a] && items[row[b].item] == order[b];
    }
    forall i | i in interactions[u]
      ensures i in itemMap && Sample(j, itemMap[i], interactions[u][i]) in row
    {
      var p :| 0 <= p < |order| && order[p] == i;
      assert row[p] == Sample(j, itemMap[i], interactions[u][i]);
    }
  }

  /** Appending the triples of user `j` to those of the earlier users keeps
      every (user, item) pair unique. */
  lemma AppendNoDuplicatePairs(samples: seq<Sample>, row: seq<Sample>, j: nat)
    requires NoDuplicatePairs(samples) && NoDuplicatePairs(row)
    requires forall k :: 0 <= k < |samples| ==> samples[k].user < j
    requires forall k :: 0 <= k < |row| ==> row[k].user == j
    ensures NoDuplicatePairs(samples + row)
  {
    var all := samples + row;
    forall a, b | 0 <= a < b < |all|
      ensures all[a].user != all[b].user || all[a].item != all[b].item
    {
      if b >= |samples| {
        assert all[b] == row[b - |samples|];
        if a >= |samples| {
          assert all[a] == row[a - |samples|];
        }
      }
    }
  }

  /** Concatenation of a list of batches. */
  function Flatten<T>(batches: seq<seq<T>>): seq<T> {
    if batches == [] then [] else batches[0] + Flatten(batches[1..])
  }

  /** `[s[i:i+size] for i in range(0, len(s), size)]` for a positive size:
      contiguous batches that partition `s`, all full but the last. */
  function Batches<T>(s: seq<T>, size: nat): (r: seq<seq<T>>)
    requires size > 0
    ensures Flatten(r) == s
    ensures forall j :: 0 <= j < |r| ==> 0 < |r[j]| <= size
    ensures forall j :: 0 <= j < |r| - 1 ==> |r[j]| == size
    decreases |s|
  {
    if s == [] then []
    else if |s| <= size then
      assert Flatten([s]) == s + Flatten([]);
      [s]
    else
      var rest := Batches(s[size..], size);
      assert ([s[..size]] + rest)[1..] == rest;
      assert s == s[..size] + s[size..];
      [s[..size]] + rest
  }

  /** Sample `q * size + p` is element `p` of batch `q`: each sample lies in
      exactly the batch its position names. */
  lemma BatchesLocate<T>(s: seq<T>, size: nat, q: nat, p: nat)
    requires size > 0 && p < size && q * size + p < |s|
    ensures q < |Batches(s, size)| && p < |Batches(s, size)[q]|
    ensures Batches(s, size)[q][p] == s[q * size + p]
  {
    BatchAt(s, size, q, p, q * size + p);
  }

  /** `BatchesLocate` with the position `i` as its own variable, so that
      the induction on `q` steps `i` back by `size`. */
  lemma {:induction false} BatchAt<T>(s: seq<T>, size: nat, q: nat, p: nat, i: nat)
    requires size > 0 && p < size && i == q * size + p && i < |s|
    ensures q < |Batches(s, size)| && p < |Batches(s, size)[q]|
    ensures Batches(s, size)[q][p] == s[i]
    decreases q
  {
    if q == 0 {
      assert Batches(s, size)[0] == if |s| <= size then s else s[..size];
    } else {
      ShiftBatch(q, size, p);
      var rest := s[size..];
      BatchAt(rest, size, q - 1, p, i - size);
      BatchesTail(s, size);
      assert Batches(s, size)[q] == Batches(rest, size)[q - 1];
    }
  }

  /** One batch further on is `size` samples further on. */
  lemma ShiftBatch(q: nat, size: nat, p: nat)
    requires q > 0
    ensures (q - 1) * size + p + size == q * size + p
  {
    assert (q - 1) * size == q * size - size;
  }

  /** Past the first batch, the batches are those of the rest. */
  lemma BatchesTail<T>(s: seq<T>, size: nat)
    requires 0 < size < |s|
    ensures Batches(s, size) == [s[..size]] + Batches(s[size..], size)
  {
  }

  /** The batches of one epoch, or the `ValueError` of `range` with a zero
      step; a negative step yields an empty range, hence no batches. */
  function EpochBatches(shuffled: seq<Sample>, batchSize: int): (r: Result<seq<seq<Sample>>>)
    ensures r.Err? <==> batchSize == 0
    ensures r.Err? ==> r.error == ValueError
    ensures batchSize < 0 ==> r == Ok([])
    ensures batchSize > 0 ==> r == Ok(Batches(shuffled, batchSize))
    ensures batchSize > 0 ==> Flatten(r.value) == shuffled
    ensures r.Ok? ==> forall b :: b in r.value ==> 0 < |b| <= batchSize
  {
    if batchSize == 0 then Err(ValueError)
    else if batchSize < 0 then Ok([])
    else
      var bs := Batches(shuffled, batchSize);
      assert forall b :: b in bs ==> 0 < |b| <= batchSize;
      Ok(bs)
  }

  /** `b` is what one epoch does to `samples`: for a positive batch size,
      the contiguous slicing `Batches` of some permutation of the samples;
      for a negative one, no batches. */
  ghost predicate IsEpoch(b: seq<seq<Sample>>, samples: seq<Sample>, batchSize: int) {
    && (batchSize > 0 ==> b == Batches(Flatten(b), batchSize) && multiset(Flatten(b)) == multiset(samples))
    && (batchSize < 0 ==> b == [])
  }

  /** The batch schedule of epochs `epoch .. epochs - 1`: each epoch first
      applies `shuffle` to the current list (in place, as `random.shuffle`
      does) and then cuts it into batches. */
  function Schedule(
    current: seq<Sample>, epoch: nat, epochs: int, batchSize: int,
    shuffle: (nat, seq<Sample>) -> seq<Sample>): (r: Result<seq<seq<seq<Sample>>>>)
    requires forall e, s :: multiset(shuffle(e, s)) == multiset(s)
    ensures r.Err? <==> epoch < epochs && batchSize == 0
    ensures r.Err? ==> r.error == ValueError
    ensures r.Ok? ==> |r.value| == Max(0, epochs - epoch)
    ensures r.Ok? ==> forall e :: 0 <= e < |r.value| ==> IsEpoch(r.value[e], current, batchSize)
    decreases epochs - epoch
  {
    if epoch >= epochs then Ok([])
    else
      var shuffled := shuffle(epoch, current);
      var now := EpochBatches(shuffled, batchSize);
      if now.Err? then Err(now.error)
      else
        var rest := Schedule(shuffled, epoch + 1, epochs, batchSize, shuffle);
        if rest.Err? then rest
        else
          assert IsEpoch(now.value, current, batchSize);
          var all := [now.value] + rest.value;
          assert forall e :: 0 < e < |all| ==> all[e] == rest.value[e - 1];
          Ok(all)
  }

  /** `fit`: builds the index maps from the iteration orders, the sample
      list, and the batch schedule of `epochs` epochs. The maps are replaced
      before the schedule can raise, so the returned factorizer is the new
      one even when `schedule` is an error.

      `users`, `items` and `rowOrder` are the orders in which Python iterates
      the dict, the item set and each user's dict; `U` and `V` stand for the
      tables as they are when `fit` returns; `shuffle` stands for
      `random.shuffle`, an arbitrary permutation per epoch. */
  method Fit(
    interactions: Interactions, epochs: int, batchSize: int,
    users: seq<UserId>, items: seq<ItemId>, rowOrder: map<UserId, seq<ItemId>>,
    U: seq<Row>, V: seq<Row>,
    shuffle: (nat, seq<Sample>) -> seq<Sample>)
    returns (model: Factorizer, samples: seq<Sample>, schedule: Result<seq<seq<seq<Sample>>>>)
    requires Enumerates(users, interactions.Keys)
    requires Enumerates(items, ItemsOf(interactions))
    requires forall u :: u in interactions ==> u in rowOrder && Enumerates(rowOrder[u], interactions[u].Keys)
    requires |U| == |users| && |V| == |items|
    requires forall e, s :: multiset(shuffle(e, s)) == multiset(s)
    ensures Valid(model) && model.users == users && model.items == items
    ensures model.U == U && model.V == V
    ensures forall u :: u in model.userMap <==> u in interactions
    ensures forall i :: i in model.itemMap <==> i in ItemsOf(interactions)
    ensures forall k :: 0 <= k < |samples| ==> Describes(interactions, users, items, samples[k])
    ensures NoDuplicatePairs(samples)
    ensures forall u, i :: u in interactions && i in interactions[u] ==>
      Sample(model.userMap[u], model.itemMap[i], interactions[u][i]) in samples
    ensures schedule.Err? <==> epochs > 0 && batchSize == 0
    ensures schedule.Ok? ==> |schedule.value| == Max(0, epochs)
    ensures schedule.Ok? ==> forall e :: 0 <= e < |schedule.value| ==> IsEpoch(schedule.value[e], samples, batchSize)
  {
    var userMap := IndexMap(users);
    var itemMap := IndexMap(items);
    model := Factorizer(users, items, userMap, itemMap, U, V);
    samples := BuildSamples(interactions, users, items, rowOrder, userMap, itemMap);
    schedule := Schedule(samples, 0, epochs, batchSize, shuffle);
  }

  /** `predict(u, i)`: 0.0 for an id the last `fit` did not see, otherwise
      the dot product of the user's and the item's rows. */
  function Predict(f: Factorizer, u: UserId, i: ItemId, dot: (Row, Row) -> real): (r: real)
    requires Valid(f)
    ensures u !in f.userMap || i !in f.itemMap ==> r == 0.0
    ensures u in f.userMap && i in f.itemMap ==>
      f.userMap[u] < |f.U| && f.itemMap[i] < |f.V| && r == dot(f.U[f.userMap[u]], f.V[f.itemMap[i]])
  {
    if u !in f.userMap || i !in f.itemMap then 0.0
    else dot(f.U[f.userMap[u]], f.V[f.itemMap[i]])
  }

  /** A prediction depends on nothing but the two stored rows: factorizers
      that hold the same rows for `u` and `i` predict the same. */
  lemma PredictDeterministic(f: Factorizer, g: Factorizer, u: UserId, i: ItemId, dot: (Row, Row) -> real)
    requires Valid(f) && Valid(g)
    requires u in f.userMap && i in f.itemMap && u in g.userMap && i in g.itemMap
    requires f.U[f.userMap[u]] == g.U[g.userMap[u]] && f.V[f.itemMap[i]] == g.V[g.itemMap[i]]
    ensures Predict(f, u, i, dot) == Predict(g, u, i, dot)
  {
  }

  /** Before any `fit` every prediction is the fallback 0.0. */
  lemma PredictUntrained(u: UserId, i: ItemId, dot: (Row, Row) -> real)
    ensures Valid(Untrained) && Predict(Untrained, u, i, dot) == 0.0
  {
    UntrainedValid();
  }
}
