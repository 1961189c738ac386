/** The loop every collector runs over a newest-first feed:

      for entry in feed:
          <parse the entry's date>          (an exception ends the run)
          if <date is not today>: break
          <resolve the entry into a row>    (an exclusion skips it,
                                             any other exception ends the run)

    `dated` stands for the date test and `resolve` for the row builder. */
module Scan {
  import opened Outcomes

  function Collect<E, R>(feed: seq<E>, dated: E -> Result<bool>, resolve: E -> Classified<R>): (r: Result<seq<R>>)
    ensures r.Ok? ==> |r.value| <= |feed|
  {
    if |feed| == 0 then Ok([])
    else match dated(feed[0])
      case Err(e) => Err(e)
      case Ok(today) =>
        if !today then Ok([])
        else match resolve(feed[0])
          case Failure(e) => Err(e)
          case Excluded => Collect(feed[1..], dated, resolve)
          case Row(row) =>
            match Collect(feed[1..], dated, resolve)
            case Err(e) => Err(e)
            case Ok(rows) => Ok([row] + rows)
  }

  /** The rows of the entries that resolve to one, in feed order. */
  function Kept<E, R>(entries: seq<E>, resolve: E -> Classified<R>): (rows: seq<R>)
    ensures |rows| <= |entries|
  {
    if |entries| == 0 then []
    else
      (match resolve(entries[0]) case Row(row) => [row] case _ => [])
      + Kept(entries[1..], resolve)
  }

  /** The first `k` entries are dated today and resolve without an exception. */
  ghost predicate CleanUpTo<E, R>(feed: seq<E>, dated: E -> Result<bool>, resolve: E -> Classified<R>, k: nat) {
    k <= |feed| &&
    forall i :: 0 <= i < k ==> dated(feed[i]) == Ok(true) && !resolve(feed[i]).Failure?
  }

  /** `feed[..k]` is the longest prefix dated today: the scan stops at `k`
      because the feed ends there or entry `k` is dated another day. */
  ghost predicate StopsAt<E, R>(feed: seq<E>, dated: E -> Result<bool>, resolve: E -> Classified<R>, k: nat) {
    CleanUpTo(feed, dated, resolve, k) && (k < |feed| ==> dated(feed[k]) == Ok(false))
  }

  /** The scan reaches entry `k` and that entry raises `e`: its date does
      not parse, or it is dated today and resolving it raises. */
  ghost predicate FailsAt<E, R>(feed: seq<E>, dated: E -> Result<bool>, resolve: E -> Classified<R>, k: nat, e: PyError) {
    CleanUpTo(feed, dated, resolve, k) && k < |feed| &&
    (dated(feed[k]) == Err(e) || (dated(feed[k]) == Ok(true) && resolve(feed[k]) == Failure(e)))
  }

  lemma CleanUpToTail<E, R>(feed: seq<E>, dated: E -> Result<bool>, resolve: E -> Classified<R>, k: nat)
    requires |feed| > 0 && 0 < k && CleanUpTo(feed, dated, resolve, k)
    ensures CleanUpTo(feed[1..], dated, resolve, k - 1)
  {
    forall i | 0 <= i < k - 1
      ensures dated(feed[1..][i]) == Ok(true) && !resolve(feed[1..][i]).Failure?
    {
      assert feed[1..][i] == feed[i + 1];
    }
  }

  /** A scan that stops at `k` returns exactly the rows of the entries
      before `k`: the non-excluded entries of the longest prefix dated
      today, in feed order. */
  lemma {:induction false} CollectStops<E, R>(feed: seq<E>, dated: E -> Result<bool>, resolve: E -> Classified<R>, k: nat)
    requires StopsAt(feed, dated, resolve, k)
    ensures Collect(feed, dated, resolve) == Ok(Kept(feed[..k], resolve))
    decreases k
  {
    if k == 0 {
      assert feed[..k] == [];
    } else {
      assert dated(feed[0]) == Ok(true) && !resolve(feed[0]).Failure?;
      CleanUpToTail(feed, dated, resolve, k);
      if k - 1 < |feed[1..]| {
        assert feed[1..][k - 1] == feed[k];
      }
      CollectStops(feed[1..], dated, resolve, k - 1);
      assert feed[..k][0] == feed[0];
      assert feed[..k][1..] == feed[1..][..k - 1];
      var rest := Kept(feed[1..][..k - 1], resolve);
      match resolve(feed[0])
      case Row(row) =>
        assert Kept(feed[..k], resolve) == [row] + rest;
      case Excluded =>
        assert Kept(feed[..k], resolve) == [] + rest == rest;
    }
  }

  /** A scan that reaches a failing entry ends with that entry's exception,
      whatever it kept before: only exclusions are caught. */
  lemma {:induction false} CollectFails<E, R>(feed: seq<E>, dated: E -> Result<bool>, resolve: E -> Classified<R>, k: nat, e: PyError)
    requires FailsAt(feed, dated, resolve, k, e)
    ensures Collect(feed, dated, resolve) == Err(e)
    decreases k
  {
    if k > 0 {
      CleanUpToTail(feed, dated, resolve, k);
      assert feed[1..][k - 1] == feed[k];
      CollectFails(feed[1..], dated, resolve, k - 1, e);
    }
  }

  /** Every outcome of the scan is one of the two above. */
  lemma {:induction false} CollectOutcome<E, R>(feed: seq<E>, dated: E -> Result<bool>, resolve: E -> Classified<R>)
    ensures Collect(feed, dated, resolve).Ok? ==>
      exists k: nat :: StopsAt(feed, dated, resolve, k) && Collect(feed, dated, resolve).value == Kept(feed[..k], resolve)
    ensures Collect(feed, dated, resolve).Err? ==>
      exists k: nat :: FailsAt(feed, dated, resolve, k, Collect(feed, dated, resolve).error)
  {
    var k := StopIndex(feed, dated, resolve);
    if k < |feed| && dated(feed[k]) != Ok(false) {
      var e := match dated(feed[k]) case Err(e) => e case Ok(_) => resolve(feed[k]).error;
      assert FailsAt(feed, dated, resolve, k, e);
      CollectFails(feed, dated, resolve, k, e);
    } else {
      assert StopsAt(feed, dated, resolve, k);
      CollectStops(feed, dated, resolve, k);
    }
  }

  /** Where the scan ends: the first entry that is not dated today or that
      fails to resolve (or the end of the feed). */
  function StopIndex<E, R>(feed: seq<E>, dated: E -> Result<bool>, resolve: E -> Classified<R>): (k: nat)
    ensures CleanUpTo(feed, dated, resolve, k)
    ensures k < |feed| ==> dated(feed[k]) != Ok(true) || resolve(feed[k]).Failure?
  {
    if |feed| == 0 || dated(feed[0]) != Ok(true) || resolve(feed[0]).Failure? then 0
    else
      var k := StopIndex(feed[1..], dated, resolve);
      assert forall i :: 0 < i <= k ==> feed[i] == feed[1..][i - 1];
      1 + k
  }

  /** Entries after the first one dated another day are never inspected:
      any tail may follow it without changing the outcome. */
  lemma CollectIgnoresTail<E, R>(feed: seq<E>, dated: E -> Result<bool>, resolve: E -> Classified<R>, k: nat, tail: seq<E>)
    requires StopsAt(feed, dated, resolve, k) && k < |feed|
    ensures Collect(feed[..k + 1] + tail, dated, resolve) == Collect(feed, dated, resolve)
  {
    var other := feed[..k + 1] + tail;
    assert forall i :: 0 <= i <= k ==> other[i] == feed[i];
    assert StopsAt(other, dated, resolve, k);
    CollectStops(other, dated, resolve, k);
    CollectStops(feed, dated, resolve, k);
    assert other[..k] == feed[..k];
  }

  /** Every kept row is the row of some entry, so every row the scan
      returns comes from an entry dated today: `i` is that entry. */
  lemma {:induction false} KeptSource<E, R>(entries: seq<E>, resolve: E -> Classified<R>, j: nat) returns (i: nat)
    requires j < |Kept(entries, resolve)|
    ensures i < |entries| && resolve(entries[i]) == Row(Kept(entries, resolve)[j])
    decreases |entries|
  {
    var head := match resolve(entries[0]) case Row(row) => [row] case _ => [];
    var rows := Kept(entries, resolve);
    assert rows == head + Kept(entries[1..], resolve);
    if j < |head| {
      i := 0;
    } else {
      var k := KeptSource(entries[1..], resolve, j - |head|);
      assert entries[1..][k] == entries[k + 1];
      i := k + 1;
    }
  }

  /** An excluded entry contributes nothing and does not disturb the rows
      around it. */
  lemma {:induction false} KeptSkipsExcluded<E, R>(before: seq<E>, e: E, after: seq<E>, resolve: E -> Classified<R>)
    requires resolve(e).Excluded?
    ensures Kept(before + [e] + after, resolve) == Kept(before + after, resolve)
    decreases |before|
  {
    if |before| == 0 {
      assert before + [e] + after == [e] + after;
      assert ([e] + after)[1..] == after;
      assert before + after == after;
    } else {
      KeptSkipsExcluded(before[1..], e, after, resolve);
      assert (before + [e] + after)[1..] == before[1..] + [e] + after;
      assert (before + after)[1..] == before[1..] + after;
    }
  }

  /** When nothing is excluded, the kept rows are the entries' rows one for
      one. */
  lemma {:induction false} KeptAllRows<E, R>(entries: seq<E>, resolve: E -> Classified<R>)
    requires forall i :: 0 <= i < |entries| ==> resolve(entries[i]).Row?
    ensures |Kept(entries, resolve)| == |entries|
    ensures forall i :: 0 <= i < |entries| ==> Kept(entries, resolve)[i] == resolve(entries[i]).row
  {
    if |entries| > 0 {
      assert forall i :: 0 <= i < |entries| - 1 ==> entries[1..][i] == entries[i + 1];
      KeptAllRows(entries[1..], resolve);
    }
  }

  /** An entry dated today that is excluded can be dropped from the feed
      wherever it stands: before it is reached nothing depends on it, and
      when it is reached it is skipped. */
  lemma {:induction false} CollectSkipsExcluded<E, R>(before: seq<E>, e: E, after: seq<E>, dated: E -> Result<bool>, resolve: E -> Classified<R>)
    requires dated(e) == Ok(true) && resolve(e).Excluded?
    ensures Collect(before + [e] + after, dated, resolve) == Collect(before + after, dated, resolve)
    decreases |before|
  {
    if |before| == 0 {
      assert before + [e] + after == [e] + after;
      assert ([e] + after)[1..] == after;
      assert before + after == after;
    } else {
      CollectSkipsExcluded(before[1..], e, after, dated, resolve);
      assert (before + [e] + after)[0] == before[0] && (before + after)[0] == before[0];
      assert (before + [e] + after)[1..] == before[1..] + [e] + after;
      assert (before + after)[1..] == before[1..] + after;
    }
  }

  /** Each row of a successful scan is the row of an entry dated today;
      `i` is that entry, and it lies before the point where the scan stops. */
  lemma CollectRowSource<E, R>(feed: seq<E>, dated: E -> Result<bool>, resolve: E -> Classified<R>, j: nat) returns (i: nat)
    requires Collect(feed, dated, resolve).Ok? && j < |Collect(feed, dated, resolve).value|
    ensures i < |feed| && dated(feed[i]) == Ok(true)
    ensures resolve(feed[i]) == Row(Collect(feed, dated, resolve).value[j])
  {
    CollectOutcome(feed, dated, resolve);
    var k: nat :| StopsAt(feed, dated, resolve, k) && Collect(feed, dated, resolve).value == Kept(feed[..k], resolve);
    var m := KeptSource(feed[..k], resolve, j);
    assert feed[..k][m] == feed[m];
    i := m;
  }

  /** Two row builders that agree on every entry of the feed give the same
      scan. */
  lemma {:induction false} CollectAgrees<E, R>(feed: seq<E>, dated: E -> Result<bool>, resolve: E -> Classified<R>, other: E -> Classified<R>)
    requires forall i :: 0 <= i < |feed| ==> resolve(feed[i]) == other(feed[i])
    ensures Collect(feed, dated, resolve) == Collect(feed, dated, other)
  {
    if |feed| > 0 {
      assert forall i :: 0 <= i < |feed| - 1 ==> feed[1..][i] == feed[i + 1];
      CollectAgrees(feed[1..], dated, resolve, other);
    }
  }

  /** If the feed holds today's entries ahead of all others (as a feed
      sorted newest-first with nothing dated after today does), the scan
      misses none of them. */
  lemma StopMissesNothing<E, R>(feed: seq<E>, dated: E -> Result<bool>, resolve: E -> Classified<R>, k: nat, i: nat)
    requires forall a, b :: 0 <= a < b < |feed| && dated(feed[b]) == Ok(true) ==> dated(feed[a]) == Ok(true)
    requires StopsAt(feed, dated, resolve, k)
    requires i < |feed| && dated(feed[i]) == Ok(true)
    ensures i < k
  {
  }
}
