/** The selection rule shared by `lfs` and `lfsEntries`: walk the free-space
    answers in order, stop at the first error, and keep the first value that
    is strictly below the running minimum, which starts at a seed. */
module LeastFreeSpace {
  import opened Values

  /** The state of the walk: the running minimum and the index of the
      candidate that set it, if any. */
  datatype Scanned = Scanned(min: int64, winner: Option<nat>)

  /** Every free-space query succeeded. */
  predicate AllOk(rs: seq<Result<int64>>)
  {
    forall j :: 0 <= j < |rs| ==> rs[j].Ok?
  }

  /** Candidate `i` is the first whose free-space query failed. */
  predicate FailsFirstAt(rs: seq<Result<int64>>, i: int)
  {
    0 <= i < |rs| && rs[i].Err? && forall j :: 0 <= j < i ==> rs[j].Ok?
  }

  /** Candidate `k` reports the least free space, and every candidate before
      it reports strictly more (the first one seen wins a tie). */
  predicate IsFirstLeast(rs: seq<Result<int64>>, k: int)
  {
    && 0 <= k < |rs|
    && rs[k].Ok?
    && (forall j :: 0 <= j < k ==> rs[j].Ok? && rs[j].value > rs[k].value)
    && (forall j :: k < j < |rs| ==> rs[j].Ok? && rs[j].value >= rs[k].value)
  }

  /** The walk over the first |rs| answers, as a left fold. */
  function Scan(rs: seq<Result<int64>>, seed: int64): (r: Result<Scanned>)
    ensures r.Ok? ==> r.value.min <= seed
    ensures r.Ok? && r.value.winner.None? ==> r.value.min == seed
    ensures r.Ok? && r.value.winner.Some? ==>
              && r.value.winner.value < |rs|
              && rs[r.value.winner.value] == Ok(r.value.min)
              && r.value.min < seed
    decreases |rs|
  {
    if rs == [] then Ok(Scanned(seed, None))
    else
      match Scan(rs[..|rs| - 1], seed)
      case Err(e) => Err(e)
      case Ok(acc) =>
        match rs[|rs| - 1]
        case Err(e) => Err(e)
        case Ok(space) =>
          if space < acc.min then Ok(Scanned(space, Some(|rs| - 1))) else Ok(acc)
  }

  /** Once a query has failed, nothing that follows changes the outcome. */
  lemma {:induction false} ScanAfterFailure(rs: seq<Result<int64>>, rest: seq<Result<int64>>, seed: int64)
    requires Scan(rs, seed).Err?
    ensures Scan(rs + rest, seed) == Scan(rs, seed)
    decreases |rest|
  {
    if rest == [] {
      assert rs + rest == rs;
    } else {
      var front := rest[..|rest| - 1];
      ScanAfterFailure(rs, front, seed);
      assert (rs + rest)[..|rs + rest| - 1] == rs + front;
    }
  }

  /** The walk succeeds exactly when every query succeeds. */
  lemma {:induction false} ScanOkIffAllOk(rs: seq<Result<int64>>, seed: int64)
    ensures Scan(rs, seed).Ok? <==> AllOk(rs)
    decreases |rs|
  {
    if rs != [] {
      var front := rs[..|rs| - 1];
      ScanOkIffAllOk(front, seed);
      assert forall j :: 0 <= j < |front| ==> front[j] == rs[j];
    }
  }

  /** The walk fails with the error of the first failing query. */
  lemma ScanFailsAtFirstError(rs: seq<Result<int64>>, seed: int64, i: int)
    requires FailsFirstAt(rs, i)
    ensures Scan(rs, seed) == Err(rs[i].error)
  {
    var upTo := rs[..i + 1];
    assert upTo[..i] == rs[..i];
    ScanOkIffAllOk(rs[..i], seed);
    assert Scan(upTo, seed) == Err(rs[i].error);
    ScanAfterFailure(upTo, rs[i + 1..], seed);
    assert upTo + rs[i + 1..] == rs;
  }

  /** When every query succeeds, the walk ends with no winner exactly when no
      value is below the seed, and otherwise with the first least value. */
  lemma {:induction false} ScanFindsFirstLeast(rs: seq<Result<int64>>, seed: int64)
    requires AllOk(rs)
    ensures Scan(rs, seed).Ok?
    ensures Scan(rs, seed).value.winner.None? ==> forall j :: 0 <= j < |rs| ==> rs[j].value >= seed
    ensures Scan(rs, seed).value.winner.Some? ==> IsFirstLeast(rs, Scan(rs, seed).value.winner.value)
    decreases |rs|
  {
    if rs != [] {
      var n := |rs| - 1;
      var front := rs[..n];
      assert forall j :: 0 <= j < n ==> front[j] == rs[j];
      ScanFindsFirstLeast(front, seed);
    }
  }

  /** Two first-least indices are the same index. */
  lemma FirstLeastUnique(rs: seq<Result<int64>>, k1: int, k2: int)
    requires IsFirstLeast(rs, k1) && IsFirstLeast(rs, k2)
    ensures k1 == k2
  {
  }

  /** The whole rule: given that every query succeeds, the walk picks index `k`
      exactly when `k` is the first least and its value is below the seed. */
  lemma ScanWinner(rs: seq<Result<int64>>, seed: int64, k: int)
    requires AllOk(rs)
    ensures Scan(rs, seed).Ok?
    ensures Scan(rs, seed).value.winner == Some(k) <==> IsFirstLeast(rs, k) && rs[k].value < seed
  {
    ScanFindsFirstLeast(rs, seed);
    var s := Scan(rs, seed).value;
    if IsFirstLeast(rs, k) && rs[k].value < seed {
      if s.winner.Some? {
        FirstLeastUnique(rs, k, s.winner.value);
      }
    }
  }
}
