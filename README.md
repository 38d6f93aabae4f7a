# bevy-snapolation core in Dafny

A model of the snapshot-interpolation core of `bevy-snapolation`. Clients use it to
render networked state smoothly between two authoritative server snapshots. It has two
cooperating parts:

- **The vault** (`src/vault.rs`, module `Store` in `vault.dfy`) is a bounded history of
  `Snapshot`s held in a vector. `add` sorts it newest first. When the vault is full, `add`
  drops the oldest snapshot and then puts the new one in front. `get_two_closest`
  brackets a target time with the newest snapshot at or before it and the next newer
  one. `get_closest`, `get_by_id`, `get_latest` and `clear` are small queries and updates.
  `Vault` is a class with a `seq<Snapshot>` field. Its methods sort, scan and reassign
  that field. The library sort is modelled by `SortNewestFirst`, which promises only "some
  newest-first permutation". The contract of `Add` is therefore the relation
  `AddOutcome`, which leaves the order of equal times free.
- **The interpolation engine** (`src/snapshot_interpolation.rs`, one Rust module) is modelled by two Dafny modules:
  - Module `AngleMath` (`angle_math.dfy`) holds `lerp`, `degree_lerp` and `radian_lerp`
    over `real`. Both angle helpers are one `AngleLerp` with a full-turn parameter: 360
    for degrees, and `2 * PI` with the exact value of `f32` PI for radians.
  - Module `Interpolation` (`snapshot_interpolation.dfy`) holds the rest. `add_snapshot`
    runs the clock-offset state machine (`-1` = uninitialised, auto-correct threshold
    50 ms). `interpolate` does the structural work: it orders the two snapshots by time,
    matches entities by id and fields by key, and interpolates per value tag. A tag
    mismatch is an error outcome. `calc_interpolation` glues the engine to the vault.

Times are whole milliseconds (`nat`). The host clock is an explicit `nowMs` argument.

The model follows the code, including these behaviours that differ from what the names suggest:

- `get_latest` returns the last vector element. After an `add`, that is the oldest
  retained snapshot, not the newest one.
- After `add`, the vector is not sorted: the new snapshot sits in front whatever its time.
- `get_closest` returns the bracketing snapshot that is *farther* from the target (the
  older one on a tie). See `ClosestIsFarther`.
- When auto-correct fires, the offset becomes the size of the discrepancy, not the new
  estimate. See `AutocorrectRule`.

`interpolate` is specified by a method and the functions it is proved against:

- `Matches` gives the visited (entity, key) pairs: the newer group's entity order first,
  then the order of the requested keys.
- `Outputs` gives the pushed entities or the first tag mismatch.
- `InterpolateSpec` gives the whole result.

The lemmas about these functions state the properties. `Interpolate` and `PushFields`
carry the source's nested loops, and their `ensures` tie them to `InterpolateSpec`.

## Model

| member | source | states |
|---|---|---|
| `Store.SortNewestFirst` | src/vault.rs:87 | the vector after `sort_unstable_by` on descending time is non-increasing in time and holds the same multiset of snapshots |
| `Store.InsertByTime` | src/vault.rs:87 | one insertion step of that sort keeps newest-first order and adds exactly the inserted snapshot to the multiset |
| `Store.ScanBracket` | src/vault.rs:52-62 | the enumerate loop over a newest-first vector finds nothing iff every snapshot is later than the target; otherwise `older` is the element at the first index at or before the target and `newer` the element just before it (`None` at index 0), which is a bracket: greatest time at or before the target, least time after it |
| `Store.ClosestOf` | src/vault.rs:68-79 | the comparison of `get_closest` picks one of the two bracket members, and the older one when there is no newer one |
| `Store.Vault.Default` | src/vault.rs:97-100 | a default vault has capacity 120 and no snapshots |
| `Store.Vault.GetById` | src/vault.rs:36-38 | returns the first snapshot in vector order with the id, and `None` iff no snapshot has it |
| `Store.Vault.Clear` | src/vault.rs:40-42 | empties the vault and keeps its capacity |
| `Store.Vault.GetLatest` | src/vault.rs:44-46 | returns the last vector element, `None` iff the vault is empty |
| `Store.Vault.GetTwoClosest` | src/vault.rs:48-63 | `None` iff no snapshot is at or before the target; otherwise `older` has the greatest time at or before it, `newer` is absent iff nothing is later, else has the least later time; the vault is not changed |
| `Store.Vault.GetClosest` | src/vault.rs:65-84 | sorts the vault in place newest first, keeping its snapshots; returns `None` iff nothing is at or before the target, otherwise `ClosestOf` of the pair the enumerate loop finds in the sorted vault (first index at or before the target and its predecessor) |
| `Store.Vault.Add` | src/vault.rs:86-94 | the new snapshot is at index 0; the rest are old snapshots newest first; when the vault was full and not empty exactly one old snapshot is gone and it had the least time, otherwise none is |
| `Store.LatestAfterAddIsOldest` | src/vault.rs:44-46 | after `add`, `get_latest` sees the oldest retained snapshot, not the newest |
| `Store.AddSizeBound` | src/vault.rs:89-93 | from at most `vault_size` snapshots, `add` leaves `min(len + 1, vault_size)`, and 1 when `vault_size` is 0, so the capacity is never exceeded |
| `Store.AddEvictsAtMostOne` | src/vault.rs:86-94 | the multiset after `add` is the old one minus the evicted snapshot (one if full, none otherwise) plus the new one |
| `Store.BracketTimesDetermined` | src/vault.rs:48-62 | any two brackets of one target agree on the times of `older` and `newer`, so the search result is fixed up to equal-time snapshots |
| `Store.BracketExamples` | src/vault.rs:48-62 | with snapshots at 100, 200 and 300 ms, target 250 gives (300, 200), target 350 gives (none, 300) and target 50 gives nothing |
| `Store.ClosestIsFarther` | src/vault.rs:68-79 | the snapshot `get_closest` picks is the older one exactly when the newer one is at least as close to the target, so it is always at the farther distance and the older one on a tie; with nothing newer it is the older one |
| `AngleMath.Lerp` | src/snapshot_interpolation.rs:190-192 | `(end - start) * t + start`: gives `start` at 0, `end` at 1, and `start` for equal ends |
| `AngleMath.AngleLerp` | src/snapshot_interpolation.rs:195-243 | the shared branches of the angle helpers for a full turn `turn`; for angles in [0, turn) it gives `start` at 0 and `end` at 1 |
| `AngleMath.DegreeLerp` | src/snapshot_interpolation.rs:195-216 | `degree_lerp`, a full turn of 360; for angles in [0, 360) it gives `start` at 0 and `end` at 1 |
| `AngleMath.RadianLerp` | src/snapshot_interpolation.rs:219-243 | `radian_lerp`, a full turn of `PI * 2`; for angles in [0, 2 PI) it gives `start` at 0 and `end` at 1 |
| `AngleMath.ShortArc` | src/snapshot_interpolation.rs:197-213 | the end moved by at most one turn lies within half a turn of the start |
| `AngleMath.LerpEndpoints` | src/snapshot_interpolation.rs:190-192 | `lerp` gives `start` at 0 and `end` at 1, a constant for equal ends, and `lerp(10, 20, 0.5) = 15` |
| `AngleMath.LerpBetween` | src/snapshot_interpolation.rs:190-192 | for `t` in [0, 1] the result lies between the two ends |
| `AngleMath.AngleLerpShortIsLerp` | src/snapshot_interpolation.rs:211-213 | ends at most half a turn apart are interpolated by plain `lerp` |
| `AngleMath.AngleLerpFollowsShortArc` | src/snapshot_interpolation.rs:195-216 | the result is `start + ShortArc * t` up to one full turn, so interpolation takes the short way round |
| `AngleMath.AngleLerpCanonical` | src/snapshot_interpolation.rs:195-216 | for angles in [0, turn) and `t` in [0, 1] the result stays in [0, turn), and `t = 0` / `t = 1` give `start` / `end` |
| `AngleMath.DegreeLerpWrapExample` | src/snapshot_interpolation.rs:195-216 | halfway between 350 and 10 degrees (either direction) is 0 |
| `AngleMath.RadianLerpCanonical` | src/snapshot_interpolation.rs:219-243 | the radian helper keeps angles in [0, 2 PI) and reproduces its ends at 0 and 1 |
| `Interpolation.InterpolateValue` | src/snapshot_interpolation.rs:103-151 | a value is produced iff the two tags agree, and it carries that tag; differing tags are the panicking arm |
| `Interpolation.Vec4Lerp` | src/snapshot_interpolation.rs:147 | the componentwise lerp used for `Quat` values gives the older value at 0 and the newer one at 1 |
| `Interpolation.Ordered` | src/snapshot_interpolation.rs:72-76 | returns the two snapshots as (newer, older), the later first, and in argument order on equal times |
| `Interpolation.Percent` | src/snapshot_interpolation.rs:78-84 | the fraction `r` with `older + r * (newer - older) = time`; 0 when the two times coincide |
| `Interpolation.NextOffset` | src/snapshot_interpolation.rs:49-58 | the offset after one snapshot: unchanged when initialised with auto-correct off, otherwise the old offset, the estimate or the size of the discrepancy |
| `Interpolation.FindEntity` | src/snapshot_interpolation.rs:94 | returns the first entity with the id, `None` iff none has it |
| `Interpolation.RenderTime` | src/snapshot_interpolation.rs:173-178 | the render time is `now - offset - buffer` truncated to `u64`, and exactly that value when it fits |
| `Interpolation.PushFields` | src/snapshot_interpolation.rs:95-157 | the per-entity key loop pushes exactly the outputs of that entity's matched keys, or stops with the first mismatch |
| `Interpolation.Interpolate` | src/snapshot_interpolation.rs:64-169 | the nested loops produce `InterpolateSpec`: ordered snapshots, their ids, the fraction, and the outputs of all visited pairs or the first mismatch |
| `Interpolation.OutputsShape` | src/snapshot_interpolation.rs:98-154 | one output entity per visited pair, in order, with the newer entity's id and exactly one state entry, under the pair's key, with the inputs' tag |
| `Interpolation.OutputsMismatch` | src/snapshot_interpolation.rs:103-151 | the result is an error iff some visited pair has differing tags, and the error names the first such pair |
| `Interpolation.KeyMatchesSound` | src/snapshot_interpolation.rs:95-97 | a visited key is requested and present in both entities, with the values stored under it |
| `Interpolation.KeyMatchesComplete` | src/snapshot_interpolation.rs:95-97 | every requested key present in both entities is visited |
| `Interpolation.EntityMatchesSound` | src/snapshot_interpolation.rs:91-97 | every visited pair comes from a newer-group entity found by id (first match) in the older group; fields missing on either side are skipped |
| `Interpolation.EntityMatchesComplete` | src/snapshot_interpolation.rs:91-97 | every newer entity found in the older group is visited with every requested key both entities have |
| `Interpolation.InterpolateOrder` | src/snapshot_interpolation.rs:72-76 | for every time at or after the older snapshot (interpolation and extrapolation alike), the argument order does not matter for distinct times; `newer_id`/`older_id` are the later/earlier snapshot's ids, the first argument counting as newer on a tie |
| `Interpolation.PercentEndpoints` | src/snapshot_interpolation.rs:78-84 | the fraction is 0 at the older time, 1 at the newer time, and in [0, 1] between them |
| `Interpolation.InterpolateValueEndpoints` | src/snapshot_interpolation.rs:103-151 | at fraction 0 a field reproduces the older value and at 1 the newer value (angles in canonical range) |
| `Interpolation.FirstOffsetIsEstimate` | src/snapshot_interpolation.rs:49-51 | the first snapshot sets the offset to `now - snapshot.time`, whether or not auto-correct is on |
| `Interpolation.AutocorrectRule` | src/snapshot_interpolation.rs:53-58 | an initialised offset changes only with auto-correct on and a discrepancy over 50 ms, and then becomes the discrepancy's size, not the estimate |
| `Interpolation.OffsetStaysInitialised` | src/snapshot_interpolation.rs:49-58 | after any update the offset is non-negative, so never again -1 |
| `Interpolation.SnapshotInterpolation.constructor` | src/snapshot_interpolation.rs:27-35 | a new engine has offset -1, auto-correct on, and a fresh empty vault of capacity 120 |
| `Interpolation.SnapshotInterpolation.AddSnapshot` | src/snapshot_interpolation.rs:46-62 | sets the offset by the init/auto-correct rule and adds the snapshot once to the vault, which changes only as `add` prescribes |
| `Interpolation.SnapshotInterpolation.CalcInterpolation` | src/snapshot_interpolation.rs:171-183 | `None` iff the vault has no snapshot at or before the render time or none after it; otherwise the interpolation of a bracket of the render time |

## Left out

- Clock reads (`SystemTime::now`) are not modelled. The current time is the `nowMs`
  parameter of `AddSnapshot` and `CalcInterpolation`.
- `create_snapshot` is not modelled: it only stamps entities with the current time.
- `f32` arithmetic is modelled over `real`. No rounding, NaN or infinity is modelled.
- Interpolation.Percent: `div_duration_f32` yields NaN or infinity when the two snapshots share a time.
  The model uses 0.0 there, so values interpolated between two equal-time snapshots are
  not modelled.
- `time_lerp` and the `server_time` field that `interpolate` writes are not modelled.
  This is why `Interpolate` changes no state.
- The constructor takes the interpolation buffer in milliseconds. It does not compute it
  from `server_fps` with `Duration::from_secs_f32`.
- `Duration` is modelled in whole milliseconds. Sub-millisecond differences in snapshot
  times are not modelled.
- Ids and `vault_size` are unbounded naturals, not `u64`/`usize`. The `i128` to `u64`
  cast of the render time is modelled (modulo 2^64). The `u128` to `i128` cast of `now` is not.
- `Quat` values are interpolated componentwise, as bevy's `Vec4::lerp` does. There is no
  normalisation or spherical interpolation.
- The tie order of `sort_unstable_by` is not modelled. The sort is specified only as a
  newest-first permutation.
- Interpolation.Interpolate (and `Interpolation.InterpolateSpec`): requires a target time at or after the older snapshot's time. The source panics there instead, in the `Duration` subtraction `tn - t1`.
- Store.ScanBracket: `index - 1` at index 0 is modelled as the release build's wrap, so `get` finds nothing and `newer` is `None`. A debug build panics there instead. The same holds for `Store.Vault.GetTwoClosest` and `Store.Vault.GetClosest`.
- The type-mismatch `panic!` is modelled as an `Err(Mismatch(id, key))` result.
- `Interpolation.SnapshotInterpolation.AddSnapshot` requires that a snapshot is not from
  the future wherever the `u128` subtraction runs, because the source panics there.
- `get_closest`, `get_by_id` and `get_latest` return references in the source. The model returns values.
- bevy `Component` derives, the bevy `HashMap` and serde serialisation are modelled as
  Dafny maps and sequences.
- `src/lib.rs` holds only module declarations, so it has no model.
