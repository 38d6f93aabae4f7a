/**
 * The interpolation engine: clock-offset tracking on snapshot arrival, the
 * structural matching of entities and fields between two snapshots, the
 * per-tag value interpolation, and the render-time query that glues the
 * engine to the vault. The host clock is an explicit `nowMs` argument.
 */
module Interpolation {
  import opened Wrappers
  import opened Store
  import opened AngleMath

  /** The two values of a requested field carried different tags (the source panics). */
  datatype Mismatch = Mismatch(entityId: nat, stateKey: string)

  /** `InterpolatedSnapshot`: the interpolated entities, the fraction used and the source ids. */
  datatype InterpolatedSnapshot =
    InterpolatedSnapshot(entities: seq<SnapolationEntity>, percentage: real, newerId: nat, olderId: nat)

  /** One requested field of one entity found in both snapshots. */
  datatype Match = Match(id: nat, key: string, newerValue: StateValue, olderValue: StateValue)

  /** The modulus of Rust's `as u64` truncation. */
  const U64_MODULUS: int := 0x1_0000_0000_0000_0000

  predicate SameTag(a: StateValue, b: StateValue) {
    || (a.Number? && b.Number?)
    || (a.Degree? && b.Degree?)
    || (a.Radian? && b.Radian?)
    || (a.Quat? && b.Quat?)
  }

  /** bevy's `Vec4::lerp`, componentwise linear interpolation. */
  function Vec4Lerp(a: Vec4, b: Vec4, t: real): (r: Vec4)
    ensures t == 0.0 ==> r == a
    ensures t == 1.0 ==> r == b
  {
    Vec4(Lerp(a.x, b.x, t), Lerp(a.y, b.y, t), Lerp(a.z, b.z, t), Lerp(a.w, b.w, t))
  }

  /**
   * The `match` on the pair of values in `interpolate`: same-tag pairs are
   * interpolated from the older value towards the newer one; any other pair
   * is the panicking arm, here `None`.
   */
  function InterpolateValue(newer: StateValue, older: StateValue, t: real): (r: Option<StateValue>)
    ensures r.Some? <==> SameTag(newer, older)
    ensures r.Some? ==> SameTag(r.value, newer) && SameTag(r.value, older)
  {
    match (newer, older)
    case (Number(n), Number(o)) => Some(Number(Lerp(o, n, t)))
    case (Degree(n), Degree(o)) => Some(Degree(DegreeLerp(o, n, t)))
    case (Radian(n), Radian(o)) => Some(Radian(RadianLerp(o, n, t)))
    case (Quat(n), Quat(o)) => Some(Quat(Vec4Lerp(o, n, t)))
    case _ => None
  }

  /** `iter().find(|e| e.id == id)`: the first entity with that id. */
  function FindEntity(es: seq<SnapolationEntity>, id: nat): (r: Option<SnapolationEntity>)
    ensures r.None? <==> forall i :: 0 <= i < |es| ==> es[i].id != id
    ensures r.Some? ==> exists i :: 0 <= i < |es| && es[i] == r.value && r.value.id == id &&
                                   forall k :: 0 <= k < i ==> es[k].id != id
  {
    if es == [] then None
    else if es[0].id == id then Some(es[0])
    else
      var r := FindEntity(es[1..], id);
      assert r.Some? ==> exists i :: 0 <= i < |es[1..]| && es[1..][i] == r.value && r.value.id == id &&
                                     forall k :: 0 <= k < i ==> es[1..][k].id != id;
      r
  }

  /** The requested keys, in order, that both entities have. */
  function KeyMatches(newer: SnapolationEntity, older: SnapolationEntity, keys: seq<string>): seq<Match> {
    if keys == [] then []
    else
      var key := keys[|keys| - 1];
      KeyMatches(newer, older, keys[..|keys| - 1]) +
      (if key in newer.state && key in older.state
       then [Match(newer.id, key, newer.state[key], older.state[key])]
       else [])
  }

  /** For each newer entity in order whose id is found among `olderEs`, its key matches. */
  function EntityMatches(newerEs: seq<SnapolationEntity>, olderEs: seq<SnapolationEntity>, keys: seq<string>): seq<Match> {
    if newerEs == [] then []
    else
      var entity := newerEs[|newerEs| - 1];
      EntityMatches(newerEs[..|newerEs| - 1], olderEs, keys) +
      (match FindEntity(olderEs, entity.id)
       case None => []
       case Some(olderEntity) => KeyMatches(entity, olderEntity, keys))
  }

  /** All field pairs `interpolate` visits; a missing group on either side gives none. */
  function Matches(newer: Snapshot, older: Snapshot, entityKey: string, keys: seq<string>): seq<Match> {
    if entityKey in newer.entities && entityKey in older.entities
    then EntityMatches(newer.entities[entityKey], older.entities[entityKey], keys)
    else []
  }

  /**
   * The entities `interpolate` pushes for the visited pairs, one per pair,
   * each with a single state entry; the first pair with differing tags stops
   * it with that pair's error.
   */
  function Outputs(ms: seq<Match>, t: real): Result<seq<SnapolationEntity>, Mismatch> {
    if ms == [] then Ok([])
    else
      match Outputs(ms[..|ms| - 1], t)
      case Err(e) => Err(e)
      case Ok(out) =>
        var m := ms[|ms| - 1];
        match InterpolateValue(m.newerValue, m.olderValue, t)
        case None => Err(Mismatch(m.id, m.key))
        case Some(v) => Ok(out + [SnapolationEntity(m.id, map[m.key := v])])
  }

  /** `(newer, older)`: the later snapshot first; on equal times, the first argument. */
  function Ordered(a: Snapshot, b: Snapshot): (r: (Snapshot, Snapshot))
    ensures r == (a, b) || r == (b, a)
    ensures r.0.time >= r.1.time
    ensures a.time == b.time ==> r == (a, b)
  {
    if a.time < b.time then (b, a) else (a, b)
  }

  /**
   * The fraction of the way from `older` to `newer` at which `time` lies;
   * 0.0 where the two times coincide.
   */
  function Percent(time: nat, newerTime: nat, olderTime: nat): (r: real)
    requires olderTime <= time && olderTime <= newerTime
    ensures newerTime > olderTime ==> olderTime as real + r * (newerTime - olderTime) as real == time as real
    ensures newerTime == olderTime ==> r == 0.0
  {
    if newerTime == olderTime then 0.0
    else (time - olderTime) as real / (newerTime - olderTime) as real
  }

  /** What `interpolate(a, b, time, entityKey, keys)` produces. */
  function InterpolateSpec(a: Snapshot, b: Snapshot, time: nat, entityKey: string, keys: seq<string>)
    : Result<InterpolatedSnapshot, Mismatch>
    requires time >= Ordered(a, b).1.time
  {
    var (newer, older) := Ordered(a, b);
    var t := Percent(time, newer.time, older.time);
    match Outputs(Matches(newer, older, entityKey, keys), t)
    case Err(e) => Err(e)
    case Ok(es) => Ok(InterpolatedSnapshot(es, t, newer.id, older.id))
  }

  /**
   * The clock-offset update of `add_snapshot` for an instantaneous estimate
   * `estimate = now - snapshot.time`: an uninitialised offset (-1) takes the
   * estimate; then, with auto-correct on, a discrepancy over 50 ms replaces
   * the offset by the size of the discrepancy.
   */
  function NextOffset(stored: int, autocorrect: bool, estimate: int): (r: int)
    ensures stored != -1 && !autocorrect ==> r == stored
    ensures r == stored || r == estimate || r == Abs(stored - estimate)
  {
    var offset := if stored == -1 then estimate else stored;
    if autocorrect && Abs(offset - estimate) > 50 then Abs(offset - estimate) else offset
  }

  /** `now - time_offset - buffer`, cast from `i128` to `u64` (wrapping). */
  function RenderTime(nowMs: nat, timeOffset: int, bufferMs: nat): (r: nat)
    ensures r < U64_MODULUS
    ensures 0 <= nowMs - timeOffset - bufferMs < U64_MODULUS ==> r == nowMs - timeOffset - bufferMs
  {
    (nowMs - timeOffset - bufferMs) % U64_MODULUS
  }

  /** An error found in a prefix of the visited pairs is the error of the whole. */
  lemma {:induction false} OutputsErrPrefix(p: seq<Match>, q: seq<Match>, t: real)
    requires p <= q
    requires Outputs(p, t).Err?
    ensures Outputs(q, t) == Outputs(p, t)
    decreases |q|
  {
    if |q| > |p| {
      var q' := q[..|q| - 1];
      assert p <= q';
      OutputsErrPrefix(p, q', t);
    } else {
      assert p == q;
    }
  }

  lemma {:induction false} KeyMatchesPrefix(newer: SnapolationEntity, older: SnapolationEntity, keys: seq<string>, n: nat)
    requires n <= |keys|
    ensures KeyMatches(newer, older, keys[..n]) <= KeyMatches(newer, older, keys)
    decreases |keys|
  {
    if n < |keys| {
      var keys' := keys[..|keys| - 1];
      KeyMatchesPrefix(newer, older, keys', n);
      assert keys'[..n] == keys[..n];
    } else {
      assert keys[..n] == keys;
    }
  }

  lemma {:induction false} EntityMatchesPrefix(newerEs: seq<SnapolationEntity>, olderEs: seq<SnapolationEntity>, keys: seq<string>, n: nat)
    requires n <= |newerEs|
    ensures EntityMatches(newerEs[..n], olderEs, keys) <= EntityMatches(newerEs, olderEs, keys)
    decreases |newerEs|
  {
    if n < |newerEs| {
      var es' := newerEs[..|newerEs| - 1];
      EntityMatchesPrefix(es', olderEs, keys, n);
      assert es'[..n] == newerEs[..n];
    } else {
      assert newerEs[..n] == newerEs;
    }
  }

  /**
   * The inner loop of `interpolate` for one newer entity and its older
   * counterpart: for each requested key both have, push the interpolated
   * field onto `pushed`, stopping at the first pair with differing tags.
   */
  method PushFields(entity: SnapolationEntity, olderEntity: SnapolationEntity, stateKeys: seq<string>,
                    percent: real, ghost done: seq<Match>, pushed: seq<SnapolationEntity>)
    returns (r: Result<seq<SnapolationEntity>, Mismatch>)
    requires Outputs(done, percent) == Ok(pushed)
    ensures r == Outputs(done + KeyMatches(entity, olderEntity, stateKeys), percent)
  {
    var interpolated := pushed;
    assert stateKeys[..0] == [] && done + [] == done;
    for j := 0 to |stateKeys|
      invariant Outputs(done + KeyMatches(entity, olderEntity, stateKeys[..j]), percent) == Ok(interpolated)
    {
      var key := stateKeys[j];
      assert stateKeys[..j + 1][..j] == stateKeys[..j];
      ghost var before := done + KeyMatches(entity, olderEntity, stateKeys[..j]);
      if key in entity.state && key in olderEntity.state {
        var value := InterpolateValue(entity.state[key], olderEntity.state[key], percent);
        ghost var m := Match(entity.id, key, entity.state[key], olderEntity.state[key]);
        assert done + KeyMatches(entity, olderEntity, stateKeys[..j + 1]) == before + [m];
        if value.None? {
          KeyMatchesPrefix(entity, olderEntity, stateKeys, j + 1);
          OutputsErrPrefix(before + [m], done + KeyMatches(entity, olderEntity, stateKeys), percent);
          return Err(Mismatch(entity.id, key));
        }
        interpolated := interpolated + [SnapolationEntity(entity.id, map[key := value.value])];
      } else {
        assert done + KeyMatches(entity, olderEntity, stateKeys[..j + 1]) == before;
      }
    }
    assert stateKeys[..|stateKeys|] == stateKeys;
    return Ok(interpolated);
  }

  /**
   * `interpolate`: orders the two snapshots by time, then for every entity of
   * the newer group found by id in the older group and every requested key
   * both have, pushes an entity with that key's interpolated value.
   */
  method Interpolate(snapshotA: Snapshot, snapshotB: Snapshot, time: nat, entityKey: string, stateKeys: seq<string>)
    returns (r: Result<InterpolatedSnapshot, Mismatch>)
    requires time >= Ordered(snapshotA, snapshotB).1.time
    ensures r == InterpolateSpec(snapshotA, snapshotB, time, entityKey, stateKeys)
  {
    var (newer, older) := Ordered(snapshotA, snapshotB);
    var percent := Percent(time, newer.time, older.time);
    var interpolated: seq<SnapolationEntity> := [];
    if entityKey in newer.entities {
      var entities := newer.entities[entityKey];
      for i := 0 to |entities|
        invariant entityKey in older.entities ==>
                    Outputs(EntityMatches(entities[..i], older.entities[entityKey], stateKeys), percent) == Ok(interpolated)
        invariant entityKey !in older.entities ==> interpolated == []
      {
        var entity := entities[i];
        if entityKey in older.entities {
          var olderEntities := older.entities[entityKey];
          ghost var done := EntityMatches(entities[..i], olderEntities, stateKeys);
          assert entities[..i + 1][..i] == entities[..i];
          var found := FindEntity(olderEntities, entity.id);
          if found.Some? {
            var pushed := PushFields(entity, found.value, stateKeys, percent, done, interpolated);
            assert EntityMatches(entities[..i + 1], olderEntities, stateKeys)
                == done + KeyMatches(entity, found.value, stateKeys);
            if pushed.Err? {
              EntityMatchesPrefix(entities, olderEntities, stateKeys, i + 1);
              OutputsErrPrefix(EntityMatches(entities[..i + 1], olderEntities, stateKeys),
                               EntityMatches(entities, olderEntities, stateKeys), percent);
              assert entities == newer.entities[entityKey];
              return Err(pushed.error);
            }
            interpolated := pushed.value;
          } else {
            assert EntityMatches(entities[..i + 1], olderEntities, stateKeys) == done;
          }
        }
      }
      assert entities[..|entities|] == entities;
    }
    r := Ok(InterpolatedSnapshot(interpolated, percent, newer.id, older.id));
  }

  /**
   * Shape of a successful output: one entity per visited pair, in order,
   * carrying that pair's entity id and exactly one state entry, under the
   * pair's key, whose tag is the tag of both inputs.
   */
  lemma {:induction false} OutputsShape(ms: seq<Match>, t: real)
    requires Outputs(ms, t).Ok?
    ensures var es := Outputs(ms, t).value;
            && |es| == |ms|
            && forall i :: 0 <= i < |ms| ==>
                 && es[i].id == ms[i].id
                 && es[i].state.Keys == {ms[i].key}
                 && SameTag(es[i].state[ms[i].key], ms[i].newerValue)
                 && SameTag(es[i].state[ms[i].key], ms[i].olderValue)
  {
    if ms != [] {
      OutputsShape(ms[..|ms| - 1], t);
    }
  }

  /**
   * Tag checking: the output is an error exactly when some visited pair has
   * differing tags, and the error names the first such pair.
   */
  lemma {:induction false} OutputsMismatch(ms: seq<Match>, t: real)
    ensures Outputs(ms, t).Err? <==> exists i :: 0 <= i < |ms| && !SameTag(ms[i].newerValue, ms[i].olderValue)
    ensures Outputs(ms, t).Err? ==>
              exists i :: && 0 <= i < |ms|
                          && !SameTag(ms[i].newerValue, ms[i].olderValue)
                          && Outputs(ms, t).error == Mismatch(ms[i].id, ms[i].key)
                          && forall k :: 0 <= k < i ==> SameTag(ms[k].newerValue, ms[k].olderValue)
  {
    if ms != [] {
      var init := ms[..|ms| - 1];
      OutputsMismatch(init, t);
      if Outputs(init, t).Err? {
        var i :| && 0 <= i < |init|
                 && !SameTag(init[i].newerValue, init[i].olderValue)
                 && Outputs(init, t).error == Mismatch(init[i].id, init[i].key)
                 && forall k :: 0 <= k < i ==> SameTag(init[k].newerValue, init[k].olderValue);
        assert ms[i] == init[i];
      } else {
        assert forall k :: 0 <= k < |init| ==> ms[k] == init[k];
      }
    }
  }

  /**
   * Every key match pairs a requested key present in both entities with the
   * two values stored under it.
   */
  lemma {:induction false} KeyMatchesSound(newer: SnapolationEntity, older: SnapolationEntity, keys: seq<string>)
    ensures forall m :: m in KeyMatches(newer, older, keys) ==>
              && m.id == newer.id && m.key in keys
              && m.key in newer.state && m.key in older.state
              && m.newerValue == newer.state[m.key] && m.olderValue == older.state[m.key]
  {
    if keys != [] {
      KeyMatchesSound(newer, older, keys[..|keys| - 1]);
    }
  }

  /** Every requested key present in both entities is matched. */
  lemma {:induction false} KeyMatchesComplete(newer: SnapolationEntity, older: SnapolationEntity, keys: seq<string>, j: nat)
    requires j < |keys| && keys[j] in newer.state && keys[j] in older.state
    ensures Match(newer.id, keys[j], newer.state[keys[j]], older.state[keys[j]]) in KeyMatches(newer, older, keys)
  {
    if j < |keys| - 1 {
      KeyMatchesComplete(newer, older, keys[..|keys| - 1], j);
    }
  }

  /**
   * Every visited pair comes from an entity of the newer group whose id is
   * found (first match) in the older group, and a requested key both have;
   * a field missing on either side is never visited.
   */
  lemma {:induction false} EntityMatchesSound(newerEs: seq<SnapolationEntity>, olderEs: seq<SnapolationEntity>, keys: seq<string>)
    ensures forall m :: m in EntityMatches(newerEs, olderEs, keys) ==>
              && (exists i :: 0 <= i < |newerEs| && newerEs[i].id == m.id &&
                             m.key in newerEs[i].state && m.newerValue == newerEs[i].state[m.key])
              && FindEntity(olderEs, m.id).Some?
              && m.key in FindEntity(olderEs, m.id).value.state
              && m.olderValue == FindEntity(olderEs, m.id).value.state[m.key]
              && m.key in keys
  {
    if newerEs != [] {
      var init := newerEs[..|newerEs| - 1];
      var entity := newerEs[|newerEs| - 1];
      EntityMatchesSound(init, olderEs, keys);
      var found := FindEntity(olderEs, entity.id);
      if found.Some? {
        KeyMatchesSound(entity, found.value, keys);
      }
      forall m | m in EntityMatches(newerEs, olderEs, keys)
        ensures exists i :: 0 <= i < |newerEs| && newerEs[i].id == m.id &&
                            m.key in newerEs[i].state && m.newerValue == newerEs[i].state[m.key]
      {
        if m in EntityMatches(init, olderEs, keys) {
          var i :| 0 <= i < |init| && init[i].id == m.id &&
                   m.key in init[i].state && m.newerValue == init[i].state[m.key];
          assert newerEs[i] == init[i];
        } else {
          assert newerEs[|newerEs| - 1] == entity;
        }
      }
    }
  }

  /**
   * Every pair of a newer entity found by id in the older group and a
   * requested key both entities have is visited.
   */
  lemma {:induction false} EntityMatchesComplete(newerEs: seq<SnapolationEntity>, olderEs: seq<SnapolationEntity>,
                                                 keys: seq<string>, i: nat, j: nat)
    requires i < |newerEs| && j < |keys|
    requires FindEntity(olderEs, newerEs[i].id).Some?
    requires keys[j] in newerEs[i].state && keys[j] in FindEntity(olderEs, newerEs[i].id).value.state
    ensures var o := FindEntity(olderEs, newerEs[i].id).value;
            Match(newerEs[i].id, keys[j], newerEs[i].state[keys[j]], o.state[keys[j]])
              in EntityMatches(newerEs, olderEs, keys)
  {
    var init := newerEs[..|newerEs| - 1];
    if i < |newerEs| - 1 {
      assert init[i] == newerEs[i];
      EntityMatchesComplete(init, olderEs, keys, i, j);
    } else {
      KeyMatchesComplete(newerEs[i], FindEntity(olderEs, newerEs[i].id).value, keys, j);
    }
  }

  /**
   * The caller's argument order is not trusted: swapping two snapshots with
   * different times changes nothing, and the ids reported are those of the
   * later and the earlier snapshot (the first argument counts as newer on a tie).
   */
  lemma InterpolateOrder(a: Snapshot, b: Snapshot, time: nat, entityKey: string, keys: seq<string>)
    requires time >= Ordered(a, b).1.time
    ensures a.time != b.time ==> InterpolateSpec(a, b, time, entityKey, keys) == InterpolateSpec(b, a, time, entityKey, keys)
    ensures InterpolateSpec(a, b, time, entityKey, keys).Ok? ==>
              var r := InterpolateSpec(a, b, time, entityKey, keys).value;
              && (a.time >= b.time ==> r.newerId == a.id && r.olderId == b.id)
              && (a.time < b.time ==> r.newerId == b.id && r.olderId == a.id)
  {
  }

  /**
   * Interpolating at the older snapshot's time gives fraction 0, at the newer
   * one's fraction 1; the fraction lies in [0, 1] between them.
   */
  lemma PercentEndpoints(time: nat, newerTime: nat, olderTime: nat)
    requires olderTime <= time <= newerTime
    ensures 0.0 <= Percent(time, newerTime, olderTime) <= 1.0
    ensures time == olderTime ==> Percent(time, newerTime, olderTime) == 0.0
    ensures time == newerTime && newerTime > olderTime ==> Percent(time, newerTime, olderTime) == 1.0
  {
  }

  /**
   * At fraction 0 a field reproduces the older value, at fraction 1 the newer
   * value (angles in their canonical ranges [0, 360) and [0, 2 PI)).
   */
  lemma InterpolateValueEndpoints(newer: StateValue, older: StateValue)
    requires SameTag(newer, older)
    requires newer.Degree? ==> 0.0 <= newer.degree < 360.0 && 0.0 <= older.degree < 360.0
    requires newer.Radian? ==> 0.0 <= newer.radian < 2.0 * PI_F32 && 0.0 <= older.radian < 2.0 * PI_F32
    ensures InterpolateValue(newer, older, 0.0) == Some(older)
    ensures InterpolateValue(newer, older, 1.0) == Some(newer)
  {
    match (newer, older)
    case (Number(n), Number(o)) =>
      LerpEndpoints(o, n, 0.0);
    case (Degree(n), Degree(o)) =>
      AngleLerpCanonical(o, n, 0.0, 360.0);
    case (Radian(n), Radian(o)) =>
      RadianLerpCanonical(o, n, 0.0);
    case (Quat(n), Quat(o)) =>
      LerpEndpoints(o.x, n.x, 0.0);
  }

  /**
   * The first `add_snapshot` sets the offset to `now - snapshot.time`
   * whether or not auto-correct is on.
   */
  lemma FirstOffsetIsEstimate(autocorrect: bool, estimate: int)
    ensures NextOffset(-1, autocorrect, estimate) == estimate
  {
  }

  /**
   * Auto-correct: an initialised offset is kept unless auto-correct is on
   * and it is more than 50 ms away from the new estimate; then it becomes
   * the size of that discrepancy, not the estimate (100 against an estimate
   * of 300 becomes 200).
   */
  lemma AutocorrectRule(stored: int, autocorrect: bool, estimate: int)
    requires stored >= 0
    ensures !autocorrect ==> NextOffset(stored, autocorrect, estimate) == stored
    ensures autocorrect && -50 <= stored - estimate <= 50 ==> NextOffset(stored, autocorrect, estimate) == stored
    ensures autocorrect && stored - estimate > 50 ==> NextOffset(stored, autocorrect, estimate) == stored - estimate
    ensures autocorrect && estimate - stored > 50 ==> NextOffset(stored, autocorrect, estimate) == estimate - stored
    ensures NextOffset(100, true, 300) == 200
  {
  }

  /** After any update the offset is non-negative, in particular initialised. */
  lemma OffsetStaysInitialised(stored: int, autocorrect: bool, estimate: int)
    requires stored >= -1
    requires stored == -1 || autocorrect ==> estimate >= 0
    ensures NextOffset(stored, autocorrect, estimate) >= 0
  {
  }

  /** The interpolation session: a vault plus the clock-offset estimate. */
  class SnapshotInterpolation {
    const vault: Vault
    var interpolationBufferMs: nat
    var timeOffset: int
    var autocorrectTimeOffset: bool

    /** The offset is uninitialised (-1) or a non-negative estimate. */
    ghost predicate Valid()
      reads this
    {
      timeOffset >= -1
    }

    /**
     * `new`: an empty default vault (120 snapshots), offset -1 (uninitialised),
     * auto-correct on; the buffer is given in milliseconds.
     */
    constructor (interpolationBufferMs: nat)
      ensures Valid()
      ensures fresh(vault) && vault.vaultSize == 120 && vault.vault == []
      ensures timeOffset == -1 && autocorrectTimeOffset
      ensures this.interpolationBufferMs == interpolationBufferMs
    {
      vault := new Vault.Default();
      this.interpolationBufferMs := interpolationBufferMs;
      timeOffset := -1;
      autocorrectTimeOffset := true;
    }

    /**
     * `add_snapshot` at local time `nowMs`: updates the offset by `NextOffset`
     * and adds the snapshot to the vault. The `u128` subtraction
     * `now - snapshot.time` panics when the snapshot is from the future, so
     * wherever it runs the snapshot must not be.
     */
    method AddSnapshot(snapshot: Snapshot, nowMs: nat)
      requires Valid()
      requires timeOffset == -1 || autocorrectTimeOffset ==> snapshot.time <= nowMs
      modifies this, vault
      ensures Valid()
      ensures timeOffset == NextOffset(old(timeOffset), autocorrectTimeOffset, nowMs - snapshot.time)
      ensures old(timeOffset) == -1 ==> timeOffset == nowMs - snapshot.time
      ensures timeOffset >= 0
      ensures autocorrectTimeOffset == old(autocorrectTimeOffset)
      ensures interpolationBufferMs == old(interpolationBufferMs)
      ensures vault.vaultSize == old(vault.vaultSize)
      ensures AddOutcome(old(vault.vault), vault.vaultSize, snapshot, vault.vault)
    {
      if timeOffset == -1 {
        timeOffset := nowMs - snapshot.time;
      }
      if autocorrectTimeOffset {
        var estimate := nowMs - snapshot.time;
        var difference := Abs(timeOffset - estimate);
        if difference > 50 {
          timeOffset := difference;
        }
      }
      vault.Add(snapshot);
    }

    /**
     * `calc_interpolation` at local time `nowMs`: brackets the render time
     * and interpolates between the two snapshots when both exist.
     */
    method CalcInterpolation(nowMs: nat, entityKey: string, stateKeys: seq<string>)
      returns (r: Option<Result<InterpolatedSnapshot, Mismatch>>)
      ensures var render := RenderTime(nowMs, timeOffset, interpolationBufferMs);
              r.None? <==> (forall s :: s in vault.vault ==> s.time > render) ||
                           (forall s :: s in vault.vault ==> s.time <= render)
      ensures var render := RenderTime(nowMs, timeOffset, interpolationBufferMs);
              r.Some? ==> exists newer, older ::
                IsBracket(vault.vault, render, Some(newer), older) &&
                r.value == InterpolateSpec(newer, older, render, entityKey, stateKeys)
    {
      var render := RenderTime(nowMs, timeOffset, interpolationBufferMs);
      var shots := vault.GetTwoClosest(render);
      if shots.Some? && shots.value.newer.Some? {
        var newer, older := shots.value.newer.value, shots.value.older;
        var result := Interpolate(newer, older, render, entityKey, stateKeys);
        return Some(result);
      }
      return None;
    }
  }
}
