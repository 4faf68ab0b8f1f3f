/** `CandidateCache` of optimized_rec_sys.py: a plain per-user key-value
    store of ranked candidate lists, with no eviction. */
module Caching {
  import opened PySemantics
  import opened Ranking
  import opened DataStore

  datatype CandidateCache = CandidateCache(entries: map<UserId, seq<Scored>>)

  const EmptyCache: CandidateCache := CandidateCache(map[])

  /** `get(u)`: the stored list, or `None` for a user never set. */
  function Get(c: CandidateCache, u: UserId): (r: Option<seq<Scored>>)
    ensures r.Some? <==> u in c.entries
    ensures r.Some? ==> r.value == c.entries[u]
  {
    if u in c.entries then Some(c.entries[u]) else None
  }

  /** `set(u, candidates)`: replaces the entry of `u` and no other. */
  function Set(c: CandidateCache, u: UserId, candidates: seq<Scored>): (r: CandidateCache)
    ensures Get(r, u) == Some(candidates)
    ensures forall v :: v != u ==> Get(r, v) == Get(c, v)
  {
    CandidateCache(c.entries[u := candidates])
  }

  /** One call of `set`. */
  datatype Write = Write(user: UserId, candidates: seq<Scored>)

  /** The cache after a sequence of `set` calls, in order. */
  function SetAll(c: CandidateCache, log: seq<Write>): CandidateCache
    decreases |log|
  {
    if log == [] then c
    else SetAll(Set(c, log[0].user, log[0].candidates), log[1..])
  }

  /** The list of the last write for `u` in `log`, if any. */
  function LastWrite(log: seq<Write>, u: UserId): Option<seq<Scored>>
    decreases |log|
  {
    if log == [] then None
    else
      var later := LastWrite(log[1..], u);
      if later.Some? then later
      else if log[0].user == u then Some(log[0].candidates)
      else None
  }

  /** `get` returns the list most recently passed to `set` for that user,
      and what was there before when no write names the user. */
  lemma {:induction false} GetAfterWrites(c: CandidateCache, log: seq<Write>, u: UserId)
    ensures Get(SetAll(c, log), u) == if LastWrite(log, u).Some? then LastWrite(log, u) else Get(c, u)
    decreases |log|
  {
    if log != [] {
      GetAfterWrites(Set(c, log[0].user, log[0].candidates), log[1..], u);
    }
  }

  /** A fresh cache answers `None` to every user until that user is set. */
  lemma GetNeverSet(log: seq<Write>, u: UserId)
    requires forall k :: 0 <= k < |log| ==> log[k].user != u
    ensures Get(SetAll(EmptyCache, log), u) == None
  {
    GetAfterWrites(EmptyCache, log, u);
    NoWriteNoLast(log, u);
  }

  lemma {:induction false} NoWriteNoLast(log: seq<Write>, u: UserId)
    requires forall k :: 0 <= k < |log| ==> log[k].user != u
    ensures LastWrite(log, u) == None
    decreases |log|
  {
    if log != [] {
      NoWriteNoLast(log[1..], u);
    }
  }
}
