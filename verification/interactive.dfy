/** The ranking of interactive_rec_sys.py: users are ranked by the cosine
    similarity of their rows of a rating matrix to the target user's row.
    Norms and the dot product are parameters; only the zero-denominator
    guard of the cosine is concrete. */
module Interactive {
  import opened PySemantics
  import opened Ranking

  type Vector = seq<real>

  /** `cosine_similarity_opt(a, b)`: 0.0 when the product of the norms is
      zero, otherwise the dot product divided by that product. */
  function Cosine(a: Vector, b: Vector, dot: (Vector, Vector) -> real, norm: Vector -> real): (r: real)
    ensures norm(a) * norm(b) == 0.0 ==> r == 0.0
    ensures norm(a) * norm(b) != 0.0 ==> r * (norm(a) * norm(b)) == dot(a, b)
  {
    var denom := norm(a) * norm(b);
    if denom == 0.0 then 0.0 else dot(a, b) / denom
  }

  /** With a symmetric dot product the similarity is symmetric. */
  lemma CosineSymmetric(a: Vector, b: Vector, dot: (Vector, Vector) -> real, norm: Vector -> real)
    requires forall x, y :: dot(x, y) == dot(y, x)
    ensures Cosine(a, b, dot, norm) == Cosine(b, a, dot, norm)
  {
    assert norm(a) * norm(b) == norm(b) * norm(a);
    assert dot(a, b) == dot(b, a);
  }

  /** Under the Cauchy-Schwarz inequality for non-negative norms the
      similarity lies in [-1, 1]. */
  lemma CosineBounded(a: Vector, b: Vector, dot: (Vector, Vector) -> real, norm: Vector -> real)
    requires norm(a) >= 0.0 && norm(b) >= 0.0
    requires -(norm(a) * norm(b)) <= dot(a, b) <= norm(a) * norm(b)
    ensures -1.0 <= Cosine(a, b, dot, norm) <= 1.0
  {
    var d := norm(a) * norm(b);
    if d != 0.0 {
      assert d > 0.0;
      var r := Cosine(a, b, dot, norm);
      assert r * d == dot(a, b);
    }
  }

  /** Ties among users are kept in ascending user index. */
  function UserOrder(): int -> int {
    x => x
  }

  /** The similarity loop of `get_top_k_recommendations` from row `other` on: one `(row, similarity)`
      pair per row except `userId`, in ascending row order. */
  function SimsFrom(
    matrix: seq<Vector>, target: Vector, userId: int, other: nat,
    dot: (Vector, Vector) -> real, norm: Vector -> real): (r: seq<Scored>)
    requires other <= |matrix|
    ensures forall x :: x in r ==>
      other <= x.id < |matrix| && x.id != userId && x.score == Cosine(target, matrix[x.id], dot, norm)
    ensures forall o :: other <= o < |matrix| && o != userId ==>
      Scored(o, Cosine(target, matrix[o], dot, norm)) in r
    ensures |r| == |matrix| - other - (if other <= userId < |matrix| then 1 else 0)
    ensures AscendingBy(r, UserOrder())
    decreases |matrix| - other
  {
    if other == |matrix| then []
    else
      var rest := SimsFrom(matrix, target, userId, other + 1, dot, norm);
      if other == userId then rest
      else [Scored(other, Cosine(target, matrix[other], dot, norm))] + rest
  }

  /** The row numpy reads for an index in `-n .. n - 1`: a negative index
      counts from the end. */
  function RowIndex(n: nat, userId: int): (t: nat)
    requires 0 <= n + userId && userId < n
    ensures t < n
    ensures 0 <= userId ==> t == userId
    ensures userId < 0 ==> t == n + userId
  {
    if userId < 0 then userId + n else userId
  }

  /** What `get_top_k_recommendations(matrix, user_id, k)` promises when it
      reads row `t` and excludes the id `skip` (`user_id` in both roles):
      `[:k]`-many of the `m` rows other than `skip` (`min(k, m)` for
      `k >= 0`), each with its similarity to row `t`, in descending
      similarity with ties in ascending index, and each returned row
      preceding each omitted one: more similar, or as similar and of lower
      index. For `0 <= user_id < n`, `t == skip` and `m == n - 1`; for a
      negative `user_id` no row is `skip` and `m == n`. */
  ghost predicate IsTopUsers(
    matrix: seq<Vector>, t: nat, skip: int, k: int,
    dot: (Vector, Vector) -> real, norm: Vector -> real, r: seq<Scored>)
    requires t < |matrix|
  {
    var m := |matrix| - (if 0 <= skip < |matrix| then 1 else 0);
    && |r| == (if k >= 0 then Min(k, m) else Max(0, m + k))
    && (forall x :: x in r ==>
          0 <= x.id < |matrix| && x.id != skip && x.score == Cosine(matrix[t], matrix[x.id], dot, norm))
    && RankedBy(r, UserOrder())
    && (forall x, o :: x in r && 0 <= o < |matrix| && o != skip && o !in Ids(r) ==>
          Precedes(x, Scored(o, Cosine(matrix[t], matrix[o], dot, norm)), UserOrder()))
  }

  /** The rows other than `skip`, each with its similarity to row `t`. */
  ghost function Neighbours(
    matrix: seq<Vector>, t: nat, skip: int, dot: (Vector, Vector) -> real, norm: Vector -> real): set<Scored>
    requires t < |matrix|
  {
    set o | 0 <= o < |matrix| && o != skip :: Scored(o, Cosine(matrix[t], matrix[o], dot, norm))
  }

  /** `IsTopUsers` leaves no choice, ties at the cut-off included: two lists
      that meet it for the same call are equal. */
  lemma TopUsersUnique(
    matrix: seq<Vector>, t: nat, skip: int, k: int,
    dot: (Vector, Vector) -> real, norm: Vector -> real, a: seq<Scored>, b: seq<Scored>)
    requires t < |matrix|
    requires IsTopUsers(matrix, t, skip, k, dot, norm, a) && IsTopUsers(matrix, t, skip, k, dot, norm, b)
    ensures a == b
  {
    TopUsersIsTop(matrix, t, skip, k, dot, norm, a);
    TopUsersIsTop(matrix, t, skip, k, dot, norm, b);
    TopUnique(a, b, Neighbours(matrix, t, skip, dot, norm), UserOrder());
  }

  /** A list meeting `IsTopUsers` is the top list of the rows not skipped. */
  lemma TopUsersIsTop(
    matrix: seq<Vector>, t: nat, skip: int, k: int,
    dot: (Vector, Vector) -> real, norm: Vector -> real, r: seq<Scored>)
    requires t < |matrix| && IsTopUsers(matrix, t, skip, k, dot, norm, r)
    ensures IsTop(r, Neighbours(matrix, t, skip, dot, norm), UserOrder())
  {
    var c := Neighbours(matrix, t, skip, dot, norm);
    forall x | x in r ensures x in c {
      assert x == Scored(x.id, Cosine(matrix[t], matrix[x.id], dot, norm));
    }
    forall x, y | x in r && y in c && y !in r
      ensures Precedes(x, y, UserOrder())
    {
      var o :| 0 <= o < |matrix| && o != skip && y == Scored(o, Cosine(matrix[t], matrix[o], dot, norm));
    }
  }

  /** `get_top_k_recommendations(matrix, user_id, k)`. numpy reads a row
      index in `-n .. -1` from the end and raises `IndexError` outside
      `-n .. n - 1`; the exclusion compares the raw `user_id`, so a
      negative one excludes no row. */
  function GetTopK(
    matrix: seq<Vector>, userId: int, k: int,
    dot: (Vector, Vector) -> real, norm: Vector -> real): (r: Result<seq<Scored>>)
    ensures r.Err? <==> !(-|matrix| <= userId < |matrix|)
    ensures r.Err? ==> r.error == IndexError
    ensures -|matrix| <= userId < |matrix| ==>
      r.Ok? && IsTopUsers(matrix, RowIndex(|matrix|, userId), userId, k, dot, norm, r.value)
  {
    if !(-|matrix| <= userId < |matrix|) then Err(IndexError)
    else
      var target := matrix[RowIndex(|matrix|, userId)];
      var sims := SimsFrom(matrix, target, userId, 0, dot, norm);
      var r := Prefix(SortDesc(sims), k);
      PrefixOfSortDesc(sims, k);
      PrefixRanked(sims, k, UserOrder());
      forall x, o | x in r && 0 <= o < |matrix| && o != userId && o !in Ids(r)
        ensures Precedes(x, Scored(o, Cosine(target, matrix[o], dot, norm)), UserOrder())
      {
        var y := Scored(o, Cosine(target, matrix[o], dot, norm));
        assert y in sims && y !in r;
      }
      Ok(r)
  }

  /** A negative `user_id` selects a row from the end but excludes nothing,
      so with `k >= n` the target user is ranked against itself. */
  lemma NegativeUserIdNotExcluded(
    matrix: seq<Vector>, userId: int, k: int,
    dot: (Vector, Vector) -> real, norm: Vector -> real)
    requires -|matrix| <= userId < 0 && k >= |matrix|
    ensures var self := userId + |matrix|;
      GetTopK(matrix, userId, k, dot, norm).Ok?
      && Scored(self, Cosine(matrix[self], matrix[self], dot, norm)) in GetTopK(matrix, userId, k, dot, norm).value
  {
    var self := userId + |matrix|;
    var sims := SimsFrom(matrix, matrix[self], userId, 0, dot, norm);
    var y := Scored(self, Cosine(matrix[self], matrix[self], dot, norm));
    assert y in sims;
    assert y in multiset(SortDesc(sims));
  }
}
