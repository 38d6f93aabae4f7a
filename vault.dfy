/**
 * The snapshot store: the `Snapshot`, `SnapolationEntity` and `StateValue`
 * data types and the bounded, time-ordered `Vault` that holds snapshots.
 *
 * Times are whole milliseconds (`nat`); ids are unbounded naturals; `f32`
 * values are `real`.
 */
module Store {
  import opened Wrappers

  /** A four-component vector of reals, the representation of a quaternion. */
  datatype Vec4 = Vec4(x: real, y: real, z: real, w: real)

  /** A captured state field; the tag decides how it is interpolated. */
  datatype StateValue =
    | Number(number: real)
    | Degree(degree: real)
    | Radian(radian: real)
    | Quat(quat: Vec4)

  /** One simulated object's captured state: field name to value. */
  datatype SnapolationEntity = SnapolationEntity(id: nat, state: map<string, StateValue>)

  /** Group key to the ordered list of entities captured under it. */
  type Entities = map<string, seq<SnapolationEntity>>

  /** One authoritative state sample; `time` is its capture time in milliseconds. */
  datatype Snapshot = Snapshot(id: nat, time: nat, entities: Entities)

  /**
   * The result of a bracket search: `older` is a newest snapshot at or before
   * the target, `newer` the next newer one if there is any.
   */
  datatype Bracket = Bracket(newer: Option<Snapshot>, older: Snapshot)

  function Abs(x: int): (r: nat)
    ensures r == x || r == -x
  {
    if x < 0 then -x else x
  }

  /** Newest first: times never increase along the sequence. */
  ghost predicate NewestFirst(s: seq<Snapshot>) {
    forall i, j :: 0 <= i < j < |s| ==> s[i].time >= s[j].time
  }

  /**
   * `older` is a snapshot of `v` with the greatest time at or before `time`;
   * `newer` is absent exactly when nothing in `v` is later than `time`, and
   * otherwise is a snapshot of `v` with the least time after `time`.
   */
  ghost predicate IsBracket(v: seq<Snapshot>, time: nat, newer: Option<Snapshot>, older: Snapshot) {
    && older in v
    && older.time <= time
    && (forall s :: s in v && s.time <= time ==> s.time <= older.time)
    && (newer.None? <==> forall s :: s in v ==> s.time <= time)
    && (newer.Some? ==>
          && newer.value in v
          && newer.value.time > time
          && forall s :: s in v && s.time > time ==> newer.value.time <= s.time)
  }

  /**
   * What the enumerate loop over a newest-first `sorted` returns: `older` is
   * the element at the first index `i` at or before `time`, and `newer` the
   * element at `i - 1`, or `None` when `i` is 0.
   */
  ghost predicate ScanOutcome(sorted: seq<Snapshot>, time: nat, newer: Option<Snapshot>, older: Snapshot) {
    exists i :: && 0 <= i < |sorted|
                && sorted[i] == older
                && older.time <= time
                && (forall k :: 0 <= k < i ==> sorted[k].time > time)
                && newer == (if i == 0 then None else Some(sorted[i - 1]))
  }

  /**
   * What `Vault::add` may leave behind: the new snapshot in front, then the
   * retained old snapshots newest first; when the vault was full (and not
   * empty) exactly one old snapshot is gone and it had the least time.
   */
  ghost predicate AddOutcome(before: seq<Snapshot>, size: nat, x: Snapshot, after: seq<Snapshot>) {
    && |after| >= 1
    && after[0] == x
    && NewestFirst(after[1..])
    && multiset(after[1..]) <= multiset(before)
    && |after| - 1 == (if |before| >= size && |before| > 0 then |before| - 1 else |before|)
    && forall e, y :: e in multiset(before) - multiset(after[1..]) && y in before ==> e.time <= y.time
  }

  /** Inserts `x` into a newest-first sequence, after every snapshot at least as new. */
  method InsertByTime(sorted: seq<Snapshot>, x: Snapshot) returns (r: seq<Snapshot>)
    requires NewestFirst(sorted)
    ensures NewestFirst(r)
    ensures multiset(r) == multiset(sorted) + multiset{x}
  {
    var j := 0;
    while j < |sorted| && sorted[j].time >= x.time
      invariant 0 <= j <= |sorted|
      invariant forall k :: 0 <= k < j ==> sorted[k].time >= x.time
    {
      j := j + 1;
    }
    r := sorted[..j] + [x] + sorted[j..];
    assert sorted == sorted[..j] + sorted[j..];
    forall k | j <= k < |sorted|
      ensures sorted[k].time < x.time
    {
      assert sorted[j].time < x.time;
    }
    forall a, b | 0 <= a < b < |r|
      ensures r[a].time >= r[b].time
    {
      if b < j || a > j {
      } else if a == j {
        assert r[b] == sorted[b - 1];
      } else if b == j {
        assert r[a] == sorted[a];
      } else {
        assert r[a] == sorted[a] && r[b] == sorted[b - 1];
      }
    }
  }

  /**
   * The model of `sort_unstable_by(|a, b| b.time.cmp(&a.time))`: some
   * newest-first permutation of `s` (the order among equal times is not
   * specified).
   */
  method SortNewestFirst(s: seq<Snapshot>) returns (r: seq<Snapshot>)
    ensures NewestFirst(r)
    ensures multiset(r) == multiset(s)
  {
    r := [];
    for i := 0 to |s|
      invariant NewestFirst(r)
      invariant multiset(r) == multiset(s[..i])
    {
      r := InsertByTime(r, s[i]);
      assert s[..i + 1] == s[..i] + [s[i]];
    }
    assert s[..|s|] == s;
  }

  /**
   * The enumerate loop shared by `get_two_closest` and `get_closest`: the
   * first snapshot at or before `time` and the one just before it. At index 0,
   * `index - 1` wraps and `get` yields nothing, so `newer` is `None`.
   */
  method ScanBracket(sorted: seq<Snapshot>, time: nat) returns (r: Option<Bracket>)
    requires NewestFirst(sorted)
    ensures r.None? <==> forall s :: s in sorted ==> s.time > time
    ensures r.Some? ==> IsBracket(sorted, time, r.value.newer, r.value.older)
    ensures r.Some? ==> ScanOutcome(sorted, time, r.value.newer, r.value.older)
  {
    var index := 0;
    while index < |sorted|
      invariant 0 <= index <= |sorted|
      invariant forall k :: 0 <= k < index ==> sorted[k].time > time
    {
      var snapshot := sorted[index];
      if snapshot.time <= time {
        if index == 0 {
          return Some(Bracket(None, snapshot));
        }
        return Some(Bracket(Some(sorted[index - 1]), snapshot));
      }
      index := index + 1;
    }
    return None;
  }

  /**
   * The snapshot `get_closest` picks from a bracket, as the source writes it:
   * the older snapshot when the newer one is at least as close to `time`, the
   * newer one otherwise.
   */
  function ClosestOf(newer: Option<Snapshot>, older: Snapshot, time: nat): (r: Snapshot)
    ensures r == older || (newer.Some? && r == newer.value)
    ensures newer.None? ==> r == older
  {
    match newer
    case None => older
    case Some(n) =>
      if Abs(time - n.time) <= Abs(time - older.time) then older else n
  }

  /** A bounded history of snapshots; `vault` is the source's `Vec<Snapshot>`. */
  class Vault {
    var vaultSize: nat
    var vault: seq<Snapshot>

    /** `Vault::default`: room for 120 snapshots, none held. */
    constructor Default()
      ensures vaultSize == 120 && vault == []
    {
      vaultSize := 120;
      vault := [];
    }

    /** The first snapshot in vector order whose id is `id`. */
    method GetById(id: nat) returns (r: Option<Snapshot>)
      ensures r.None? <==> forall i :: 0 <= i < |vault| ==> vault[i].id != id
      ensures r.Some? ==> exists i :: 0 <= i < |vault| && vault[i] == r.value && r.value.id == id &&
                                     forall k :: 0 <= k < i ==> vault[k].id != id
    {
      var i := 0;
      while i < |vault|
        invariant 0 <= i <= |vault|
        invariant forall k :: 0 <= k < i ==> vault[k].id != id
      {
        if vault[i].id == id {
          return Some(vault[i]);
        }
        i := i + 1;
      }
      return None;
    }

    /** Empties the vault; the capacity stays. */
    method Clear()
      modifies this
      ensures vault == [] && vaultSize == old(vaultSize)
    {
      vault := [];
    }

    /** The last element of the vector, absent exactly when the vault is empty. */
    method GetLatest() returns (r: Option<Snapshot>)
      ensures r.None? <==> vault == []
      ensures r.Some? ==> r.value == vault[|vault| - 1]
    {
      if vault == [] {
        return None;
      }
      return Some(vault[|vault| - 1]);
    }

    /**
     * Brackets `time` on a sorted copy of the vault; the vault itself is left
     * as it is.
     */
    method GetTwoClosest(time: nat) returns (r: Option<Bracket>)
      ensures r.None? <==> forall s :: s in vault ==> s.time > time
      ensures r.Some? ==> IsBracket(vault, time, r.value.newer, r.value.older)
    {
      var sorted := SortNewestFirst(vault);
      assert forall s :: s in sorted <==> s in vault by {
        forall s ensures s in sorted <==> s in vault {
          assert s in sorted <==> s in multiset(sorted);
          assert s in vault <==> s in multiset(vault);
        }
      }
      r := ScanBracket(sorted, time);
    }

    /**
     * Sorts the vault in place, newest first, and returns the bracketing
     * snapshot `ClosestOf` picks.
     */
    method GetClosest(time: nat) returns (r: Option<Snapshot>)
      modifies this
      ensures vaultSize == old(vaultSize)
      ensures NewestFirst(vault) && multiset(vault) == multiset(old(vault))
      ensures r.None? <==> forall s :: s in vault ==> s.time > time
      ensures r.Some? ==> exists newer, older ::
                && ScanOutcome(vault, time, newer, older)
                && IsBracket(vault, time, newer, older)
                && r.value == ClosestOf(newer, older, time)
    {
      vault := SortNewestFirst(vault);
      var bracket := ScanBracket(vault, time);
      if bracket.None? {
        return None;
      }
      return Some(ClosestOf(bracket.value.newer, bracket.value.older, time));
    }

    /**
     * Sorts newest first, drops the last (oldest) snapshot when the vault is
     * full, then puts `snapshot` in front whatever its time.
     */
    method Add(snapshot: Snapshot)
      modifies this
      ensures vaultSize == old(vaultSize)
      ensures AddOutcome(old(vault), vaultSize, snapshot, vault)
    {
      var sorted := SortNewestFirst(vault);
      assert |sorted| == |multiset(sorted)| == |multiset(vault)| == |vault|;
      if |sorted| >= vaultSize && |sorted| > 0 {
        var last := sorted[|sorted| - 1];
        assert sorted == sorted[..|sorted| - 1] + [last];
        assert multiset(old(vault)) - multiset(sorted[..|sorted| - 1]) == multiset{last};
        forall y | y in old(vault)
          ensures last.time <= y.time
        {
          assert y in multiset(sorted);
        }
        sorted := sorted[..|sorted| - 1];
      }
      vault := [snapshot] + sorted;
      assert vault[1..] == sorted;
    }
  }

  /** After `add`, the last element (what `get_latest` returns) is the oldest retained snapshot. */
  lemma LatestAfterAddIsOldest(before: seq<Snapshot>, size: nat, x: Snapshot, after: seq<Snapshot>)
    requires AddOutcome(before, size, x, after)
    requires |after| >= 2
    ensures forall s :: s in after[1..] ==> after[|after| - 1].time <= s.time
  {
  }

  /**
   * Size bound of `add`: from a vault holding at most `size` snapshots, the
   * length becomes `min(len + 1, size)` for a positive `size`, and 1 for `size == 0`.
   */
  lemma AddSizeBound(before: seq<Snapshot>, size: nat, x: Snapshot, after: seq<Snapshot>)
    requires AddOutcome(before, size, x, after)
    requires |before| <= size
    ensures size >= 1 ==> |after| == if |before| + 1 <= size then |before| + 1 else size
    ensures size == 0 ==> |after| == 1
    ensures |after| <= size || size == 0
  {
  }

  /**
   * Nothing else changes in `add`: the snapshots afterwards are the old ones,
   * less at most one evicted snapshot (exactly one when the vault was full and
   * not empty), plus the new one.
   */
  lemma AddEvictsAtMostOne(before: seq<Snapshot>, size: nat, x: Snapshot, after: seq<Snapshot>)
    requires AddOutcome(before, size, x, after)
    ensures var evicted := multiset(before) - multiset(after[1..]);
            && |evicted| == (if |before| >= size && |before| > 0 then 1 else 0)
            && multiset(after) == multiset(before) - evicted + multiset{x}
  {
    var kept := multiset(after[1..]);
    var evicted := multiset(before) - kept;
    assert multiset(before) == kept + evicted;
    assert |multiset(before)| == |kept| + |evicted|;
    assert after == [x] + after[1..];
  }

  /**
   * Any two brackets of the same target agree on times: the result of the
   * search is determined up to snapshots that share a time.
   */
  lemma BracketTimesDetermined(v: seq<Snapshot>, time: nat,
                               newer1: Option<Snapshot>, older1: Snapshot,
                               newer2: Option<Snapshot>, older2: Snapshot)
    requires IsBracket(v, time, newer1, older1)
    requires IsBracket(v, time, newer2, older2)
    ensures older1.time == older2.time
    ensures newer1.Some? <==> newer2.Some?
    ensures newer1.Some? ==> newer1.value.time == newer2.value.time
  {
  }

  /**
   * With snapshots at 100, 200 and 300 ms: a target of 250 is bracketed by
   * the 300 and 200 snapshots, 350 only by the 300 one (nothing newer), and 50 by nothing.
   */
  lemma BracketExamples(a: Snapshot, b: Snapshot, c: Snapshot)
    requires a.time == 100 && b.time == 200 && c.time == 300
    ensures IsBracket([a, b, c], 250, Some(c), b)
    ensures forall newer, older :: IsBracket([a, b, c], 250, newer, older) ==>
              older.time == 200 && newer.Some? && newer.value.time == 300
    ensures IsBracket([a, b, c], 350, None, c)
    ensures forall newer, older :: !IsBracket([a, b, c], 50, newer, older)
  {
    var v := [a, b, c];
    forall newer, older | IsBracket(v, 250, newer, older)
      ensures older.time == 200 && newer.Some? && newer.value.time == 300
    {
      BracketTimesDetermined(v, 250, newer, older, Some(c), b);
    }
  }

  /**
   * `get_closest` as written returns the bracketing snapshot FARTHER from
   * the target (the older one on a tie), not the closer one.
   */
  lemma ClosestIsFarther(v: seq<Snapshot>, time: nat, newer: Option<Snapshot>, older: Snapshot)
    requires IsBracket(v, time, newer, older)
    ensures newer.None? ==> ClosestOf(newer, older, time) == older
    ensures newer.Some? ==>
              (ClosestOf(newer, older, time) == older <==> newer.value.time - time <= time - older.time)
    ensures newer.Some? ==>
              var r := ClosestOf(newer, older, time);
              var dNewer, dOlder := newer.value.time - time, time - older.time;
              && (r == older || r == newer.value)
              && Abs(time - r.time) == if dNewer <= dOlder then dOlder else dNewer
  {
  }
}
