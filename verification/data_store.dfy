/** `DataStore` of optimized_rec_sys.py: the sparse user -> item -> weight
    interactions, the per-item set of users, and the per-item popularity
    count. The item-feature part of the class is not modelled. */
module DataStore {

  type UserId = int
  type ItemId = int

  /** The three `defaultdict`s of the store. A key that was never written is
      simply absent; `Weight`, `UsersOf` and `Popularity` read absent keys as
      the `defaultdict`/`.get` defaults. */
  datatype Store = Store(
    interactions: map<UserId, map<ItemId, real>>,
    itemUsers: map<ItemId, set<UserId>>,
    popularity: map<ItemId, int>)

  /** A freshly constructed store. */
  const Empty: Store := Store(map[], map[], map[])

  /** `u` has a recorded weight for `i`. */
  predicate Stored(s: Store, u: UserId, i: ItemId) {
    u in s.interactions && i in s.interactions[u]
  }

  /** `interactions[u].get(i, 0)`. */
  function Weight(s: Store, u: UserId, i: ItemId): real {
    if Stored(s, u, i) then s.interactions[u][i] else 0.0
  }

  /** `popularity.get(i, 0)`. */
  function Popularity(s: Store, i: ItemId): int {
    if i in s.popularity then s.popularity[i] else 0
  }

  /** `item_users[i]`, empty for an item never seen. */
  function UsersOf(s: Store, i: ItemId): set<UserId> {
    if i in s.itemUsers then s.itemUsers[i] else {}
  }

  /** `interactions.get(u, {})`: the items `u` has interacted with. */
  function Seen(s: Store, u: UserId): set<ItemId> {
    if u in s.interactions then s.interactions[u].Keys else {}
  }

  /** `add_interaction(u, i, v)`: adds `v` to the (u, i) weight, adds `u` to
      the users of `i`, and counts one more interaction with `i`. */
  function AddInteraction(s: Store, u: UserId, i: ItemId, v: real): (r: Store)
    ensures Stored(r, u, i) && Weight(r, u, i) == Weight(s, u, i) + v
    ensures forall u', i' :: u' != u || i' != i ==>
      Stored(r, u', i') == Stored(s, u', i') && Weight(r, u', i') == Weight(s, u', i')
    ensures r.interactions.Keys == s.interactions.Keys + {u}
    ensures UsersOf(r, i) == UsersOf(s, i) + {u}
    ensures forall i' :: i' != i ==> UsersOf(r, i') == UsersOf(s, i')
    ensures Popularity(r, i) == Popularity(s, i) + 1
    ensures forall i' :: i' != i ==> Popularity(r, i') == Popularity(s, i')
    ensures r.itemUsers.Keys == s.itemUsers.Keys + {i}
    ensures r.popularity.Keys == s.popularity.Keys + {i}
  {
    var row := if u in s.interactions then s.interactions[u] else map[];
    Store(
      s.interactions[u := row[i := Weight(s, u, i) + v]],
      s.itemUsers[i := UsersOf(s, i) + {u}],
      s.popularity[i := Popularity(s, i) + 1])
  }

  /** Recording the same (user, item) pair again leaves the item's user set as it was. */
  lemma AddInteractionUsersIdempotent(s: Store, u: UserId, i: ItemId, v: real, w: real)
    ensures UsersOf(AddInteraction(AddInteraction(s, u, i, v), u, i, w), i)
         == UsersOf(AddInteraction(s, u, i, v), i)
  {
  }

  /** The store's three tables agree: a pair is stored exactly when the user
      is among the item's users, the items with users are the items with a
      count, and each count is at least the number of distinct users. */
  ghost predicate Consistent(s: Store) {
    && (forall u, i :: Stored(s, u, i) <==> u in UsersOf(s, i))
    && s.itemUsers.Keys == s.popularity.Keys
    && (forall i :: i in s.popularity ==> 1 <= |UsersOf(s, i)| <= Popularity(s, i))
  }

  lemma EmptyConsistent()
    ensures Consistent(Empty)
  {
  }

  lemma AddInteractionConsistent(s: Store, u: UserId, i: ItemId, v: real)
    requires Consistent(s)
    ensures Consistent(AddInteraction(s, u, i, v))
  {
    var r := AddInteraction(s, u, i, v);
    forall u', i' ensures Stored(r, u', i') <==> u' in UsersOf(r, i') {
      if u' != u || i' != i {
        assert Stored(r, u', i') == Stored(s, u', i');
      }
    }
    forall i' | i' in r.popularity ensures 1 <= |UsersOf(r, i')| <= Popularity(r, i') {
      if i' == i {
        assert |UsersOf(s, i) + {u}| <= |UsersOf(s, i)| + 1;
      }
    }
  }

  /** One call of `add_interaction`. */
  datatype Event = Event(user: UserId, item: ItemId, value: real)

  /** The store after a sequence of `add_interaction` calls, in order. */
  function Replay(s: Store, log: seq<Event>): Store
    decreases |log|
  {
    if log == [] then s
    else Replay(AddInteraction(s, log[0].user, log[0].item, log[0].value), log[1..])
  }

  /** Reference definitions read off the log alone. */
  function CountFor(log: seq<Event>, i: ItemId): nat {
    if log == [] then 0
    else (if log[0].item == i then 1 else 0) + CountFor(log[1..], i)
  }

  function SumFor(log: seq<Event>, u: UserId, i: ItemId): real {
    if log == [] then 0.0
    else (if log[0].user == u && log[0].item == i then log[0].value else 0.0) + SumFor(log[1..], u, i)
  }

  function UsersFor(log: seq<Event>, i: ItemId): set<UserId> {
    if log == [] then {}
    else (if log[0].item == i then {log[0].user} else {}) + UsersFor(log[1..], i)
  }

  /** Popularity counts calls, whatever their values: replaying a log adds
      the number of calls naming the item. */
  lemma {:induction false} ReplayPopularity(s: Store, log: seq<Event>, i: ItemId)
    ensures Popularity(Replay(s, log), i) == Popularity(s, i) + CountFor(log, i)
    decreases |log|
  {
    if log != [] {
      ReplayPopularity(AddInteraction(s, log[0].user, log[0].item, log[0].value), log[1..], i);
    }
  }

  /** Weights accumulate: replaying a log adds the values of the calls for the pair. */
  lemma {:induction false} ReplayWeight(s: Store, log: seq<Event>, u: UserId, i: ItemId)
    ensures Weight(Replay(s, log), u, i) == Weight(s, u, i) + SumFor(log, u, i)
    decreases |log|
  {
    if log != [] {
      ReplayWeight(AddInteraction(s, log[0].user, log[0].item, log[0].value), log[1..], u, i);
    }
  }

  /** The users of an item grow by exactly the users of the calls naming it. */
  lemma {:induction false} ReplayUsers(s: Store, log: seq<Event>, i: ItemId)
    ensures UsersOf(Replay(s, log), i) == UsersOf(s, i) + UsersFor(log, i)
    decreases |log|
  {
    if log != [] {
      ReplayUsers(AddInteraction(s, log[0].user, log[0].item, log[0].value), log[1..], i);
    }
  }
}
