/**
  The versioned operation-log key/value engine of syncmap.go.

  The first half of the module is a value-level specification: `State` is
  the data of one map (snapshot, snapshot version, pending log) and the
  functions below say what compaction, a mutation, Diff and Patch do to it.
  The class `SyncMap` at the end holds the same data in mutable fields, and
  each of its methods is proved to do what the matching function says.
 */
module Syncmap {
  import opened OpLog

  /** Lifetime of a value when the caller gives none (one hour, in seconds). */
  const DefaultLifetime := 3600

  /** The data of one map: the compacted snapshot, its version and the
      pending log of operations not yet folded into it. */
  datatype State = State(achieved: map<string, Value>, achievedVersion: int, opList: seq<Op>)
  {
    /** The live contents: the pending log replayed over the snapshot. */
    function Live(): map<string, Value>
    {
      Replay(achieved, opList)
    }

    /** version(): the stamp of the newest pending operation, else that of the snapshot. */
    function Version(): int
    {
      if |opList| > 0 then opList[|opList| - 1].val.t else achievedVersion
    }

    /** Real versions are positive, and pending operations carry strictly
        increasing stamps above the snapshot version. */
    ghost predicate Monotone()
    {
      && 0 < achievedVersion
      && Increasing(opList)
      && forall i :: 0 <= i < |opList| ==> achievedVersion < opList[i].val.t
    }
  }

  /** On a well-versioned map the version is the largest stamp the map holds. */
  lemma VersionIsNewest(s: State)
    requires s.Monotone()
    ensures s.achievedVersion <= s.Version()
    ensures forall i :: 0 <= i < |s.opList| ==> s.opList[i].val.t <= s.Version()
  {
  }

  /** The wire message of the sync protocol: an optional snapshot and a tail of operations. */
  datatype Patch = Patch(achieved: map<string, Value>, achievedVersion: int, ops: seq<Op>)

  /** The patch that means "nothing changed". */
  const EmptyPatch := Patch(map[], 0, [])

  /** A patch as a well-versioned map produces it: a snapshot only with a
      positive version, and strictly increasing operation stamps. */
  ghost predicate WellFormed(p: Patch)
  {
    && (|p.achieved| > 0 ==> p.achievedVersion > 0)
    && Increasing(p.ops)
  }

  /** next_version: the clock reading in microseconds, or one past the
      current version when the clock has not moved beyond it. */
  function NextVersionAfter(current: int, nowMicros: int): (r: int)
    ensures r > current
    ensures r >= nowMicros
    ensures r == nowMicros || r == current + 1
  {
    if nowMicros <= current then current + 1 else nowMicros
  }

  /** The auto-remove lifetime a Set uses: the caller's when positive, else the default. */
  function Lifetime(autoremove: int): (ttl: int)
    ensures ttl > 0
    ensures autoremove > 0 ==> ttl == autoremove
  {
    if autoremove <= 0 then DefaultLifetime else autoremove
  }

  /** One compaction step: the front operation moves into the snapshot. */
  function PopFront(s: State): State
    requires s.opList != []
  {
    State(Apply(s.achieved, s.opList[0]), s.opList[0].val.t, s.opList[1..])
  }

  /** A compaction step keeps a map well-versioned: the new snapshot version
      is the popped stamp, below every remaining one. */
  lemma PopFrontMonotone(s: State)
    requires s.opList != []
    ensures s.Monotone() ==> PopFront(s).Monotone()
  {
    if s.Monotone() {
      var r := PopFront(s);
      forall i | 0 <= i < |r.opList|
        ensures r.achievedVersion < r.opList[i].val.t
      {
        assert r.opList[i] == s.opList[i + 1];
      }
      forall i, j | 0 <= i < j < |r.opList|
        ensures r.opList[i].val.t < r.opList[j].val.t
      {
        assert r.opList[i] == s.opList[i + 1] && r.opList[j] == s.opList[j + 1];
      }
    }
  }

  /** achieve(force): pop operations into the snapshot while the log is longer
      than `maxSize`, or, when forced, while it is not empty. Readers cannot
      tell: the live contents and the version do not change. A negative bound
      would make the source pop from an empty list, so it is excluded. */
  function Compact(s: State, maxSize: int, force: bool): (r: State)
    requires 0 <= maxSize
    ensures r.Live() == s.Live()
    ensures r.Version() == s.Version()
    ensures force ==> r.opList == []
    ensures !force ==> |r.opList| == if |s.opList| <= maxSize then |s.opList| else maxSize
    decreases |s.opList|
  {
    if |s.opList| > maxSize || (force && |s.opList| > 0) then Compact(PopFront(s), maxSize, force) else s
  }

  /** Dropping the front entry and then keeping the last `m` entries keeps the
      same entries as keeping the last `m` directly. */
  lemma TailOfRest(ops: seq<Op>, m: int)
    requires 0 <= m < |ops|
    ensures ops[1..][|ops| - 1 - m..] == ops[|ops| - m..]
  {
  }

  /** Compaction only drops operations from the front of the log. */
  lemma {:induction false} CompactSuffix(s: State, maxSize: int, force: bool)
    requires 0 <= maxSize
    ensures var r := Compact(s, maxSize, force);
      |r.opList| <= |s.opList| && r.opList == s.opList[|s.opList| - |r.opList|..]
    decreases |s.opList|
  {
    if |s.opList| > maxSize || (force && |s.opList| > 0) {
      var t := PopFront(s);
      CompactSuffix(t, maxSize, force);
      var r := Compact(t, maxSize, force);
      assert Compact(s, maxSize, force) == r;
      assert t.opList == s.opList[1..] && |t.opList| == |s.opList| - 1;
      TailOfRest(s.opList, |r.opList|);
      assert r.opList == s.opList[|s.opList| - |r.opList|..];
    } else {
      assert s.opList[0..] == s.opList;
    }
  }

  /** Compaction keeps a well-versioned map well-versioned. */
  lemma {:induction false} CompactMonotone(s: State, maxSize: int, force: bool)
    requires 0 <= maxSize && s.Monotone()
    ensures Compact(s, maxSize, force).Monotone()
    decreases |s.opList|
  {
    if |s.opList| > maxSize || (force && |s.opList| > 0) {
      PopFrontMonotone(s);
      CompactMonotone(PopFront(s), maxSize, force);
    }
  }

  /** The log with one more operation at its back. */
  function Appended(s: State, op: Op): State
  {
    s.(opList := s.opList + [op])
  }

  /** A mutation as SetWithOptions and Del perform it: append, then compact. */
  function Mutated(s: State, op: Op, maxSize: int): State
    requires 0 <= maxSize
  {
    Compact(Appended(s, op), maxSize, false)
  }

  /** Appending an operation applies it to the live contents and makes its stamp
      the version; a stamp above the version keeps the map well-versioned. */
  lemma AppendedEffect(s: State, op: Op)
    ensures Appended(s, op).Live() == Apply(s.Live(), op)
    ensures Appended(s, op).Version() == op.val.t
    ensures s.Monotone() && op.val.t > s.Version() ==> Appended(s, op).Monotone()
  {
    ReplaySnoc(s.achieved, s.opList, op);
    if s.Monotone() {
      VersionIsNewest(s);
    }
  }

  /** Read-your-write and delete-hides-value: after a mutation, its key reads as
      the operation's effect, every other key reads as before, the version is the
      operation's stamp and the log is within its bound. */
  lemma MutatedEffect(s: State, op: Op, maxSize: int)
    requires 0 <= maxSize
    ensures Mutated(s, op, maxSize).Live() == Apply(s.Live(), op)
    ensures Lookup(Mutated(s, op, maxSize).Live(), op.k) == Effect(op)
    ensures forall key :: key != op.k ==> Lookup(Mutated(s, op, maxSize).Live(), key) == Lookup(s.Live(), key)
    ensures Mutated(s, op, maxSize).Version() == op.val.t
    ensures |Mutated(s, op, maxSize).opList| <= maxSize
    ensures s.Monotone() && op.val.t > s.Version() ==> Mutated(s, op, maxSize).Monotone()
  {
    AppendedEffect(s, op);
    if s.Monotone() && op.val.t > s.Version() {
      CompactMonotone(Appended(s, op), maxSize, false);
    }
  }

  /** Keys whose deadline has passed at `nowUnix`. */
  function Expired(m: map<string, Value>, nowUnix: int): set<string>
  {
    set key | key in m && nowUnix > m[key].deadline
  }

  /** One key of AutoRemove's walk: deleting it when it has expired, or
      keeping it when it has not, moves it out of the keys still to visit. */
  lemma ExpireStep(live0: map<string, Value>, nowUnix: int, todo: set<string>, k: string)
    requires k in todo && todo <= live0.Keys
    ensures k in Expired(live0, nowUnix) <==> nowUnix > live0[k].deadline
    ensures nowUnix > live0[k].deadline ==>
      (live0 - (Expired(live0, nowUnix) - todo)) - {k} == live0 - (Expired(live0, nowUnix) - (todo - {k}))
    ensures nowUnix <= live0[k].deadline ==>
      live0 - (Expired(live0, nowUnix) - todo) == live0 - (Expired(live0, nowUnix) - (todo - {k}))
  {
    var e := Expired(live0, nowUnix);
    if nowUnix > live0[k].deadline {
      assert (e - todo) + {k} == e - (todo - {k});
    } else {
      assert e - todo == e - (todo - {k});
    }
  }

  /** Diff(after_version): a version beyond the map's is treated as 0; at the
      map's version the patch is empty; otherwise the snapshot travels when the
      baseline predates it, followed by the pending operations newer than the baseline. */
  function DiffOf(s: State, afterVersion: int): (p: Patch)
    ensures afterVersion == s.Version() ==> p == EmptyPatch
    ensures |p.ops| <= |s.opList|
  {
    var after := if afterVersion > s.Version() then 0 else afterVersion;
    if after == s.Version() then EmptyPatch
    else if after < s.achievedVersion then Patch(s.achieved, s.achievedVersion, Newer(s.opList, after))
    else Patch(map[], 0, Newer(s.opList, after))
  }

  /** The state a patch is applied on: the patch's snapshot with an empty log
      when it carries one, else the local state. */
  function Rebased(s: State, p: Patch): State
  {
    if |p.achieved| > 0 || p.achievedVersion > 0 then State(p.achieved, p.achievedVersion, []) else s
  }

  /** Patch(patch): rebase, append the incoming operations newer than the
      version reached so far, then compact. */
  function PatchOf(s: State, p: Patch, maxSize: int): State
    requires 0 <= maxSize
  {
    var base := Rebased(s, p);
    Compact(base.(opList := base.opList + Newer(p.ops, base.Version())), maxSize, false)
  }

  /** The first `k` pending operations are exactly those not newer than the
      version reached after them. */
  lemma PrefixSplit(s: State, k: int)
    requires s.Monotone() && 0 <= k <= |s.opList|
    ensures var v := State(s.achieved, s.achievedVersion, s.opList[..k]).Version();
      && (forall i :: 0 <= i < k ==> s.opList[i].val.t <= v)
      && (forall i :: k <= i < |s.opList| ==> s.opList[i].val.t > v)
      && Newer(s.opList, v) == s.opList[k..]
  {
    var v := State(s.achieved, s.achievedVersion, s.opList[..k]).Version();
    assert k > 0 ==> v == s.opList[k - 1].val.t;
    NewerSuffix(s.opList, v, k);
  }

  /** What a Diff to a replica at `afterVersion` (not beyond the map) holds: the
      snapshot exactly when the baseline predates it, and the pending operations
      newer than the baseline, which form a suffix of the log. */
  lemma DiffContents(s: State, afterVersion: int)
    requires s.Monotone() && afterVersion <= s.Version()
    ensures var p := DiffOf(s, afterVersion);
      && (p.achievedVersion > 0 <==> afterVersion < s.achievedVersion)
      && (afterVersion < s.achievedVersion ==> p.achieved == s.achieved && p.achievedVersion == s.achievedVersion)
      && (afterVersion >= s.achievedVersion ==> p.achieved == map[] && p.achievedVersion == 0)
      && p.ops == Newer(s.opList, afterVersion)
      && (forall op :: op in p.ops <==> op in s.opList && op.val.t > afterVersion)
  {
    NewerMembers(s.opList, afterVersion);
    if afterVersion == s.Version() {
      NewerSuffix(s.opList, afterVersion, |s.opList|);
    }
  }

  /** A replica whose baseline predates the snapshot, or that claims a version
      beyond the map's (treated as 0), is sent everything: the snapshot and the
      whole pending log. */
  lemma DiffFull(s: State, afterVersion: int)
    requires s.Monotone()
    requires afterVersion < s.achievedVersion || afterVersion > s.Version()
    ensures DiffOf(s, afterVersion) == Patch(s.achieved, s.achievedVersion, s.opList)
  {
    VersionIsNewest(s);
    var after := if afterVersion > s.Version() then 0 else afterVersion;
    assert after < s.achievedVersion <= s.Version();
    assert DiffOf(s, afterVersion) == Patch(s.achieved, s.achievedVersion, Newer(s.opList, after));
    NewerSuffix(s.opList, after, 0);
    assert s.opList[0..] == s.opList;
  }

  /** Patching with a well-versioned map's whole data rebuilds that map, compacted. */
  lemma PatchFull(r: State, s: State, maxSize: int)
    requires 0 <= maxSize && s.Monotone()
    ensures PatchOf(r, Patch(s.achieved, s.achievedVersion, s.opList), maxSize) == Compact(s, maxSize, false)
  {
    var p := Patch(s.achieved, s.achievedVersion, s.opList);
    var base := Rebased(r, p);
    assert base == State(s.achieved, s.achievedVersion, []);
    NewerSuffix(s.opList, s.achievedVersion, 0);
    assert s.opList[0..] == s.opList;
    assert base.(opList := base.opList + Newer(p.ops, base.Version())) == s;
  }

  /** A well-versioned map only produces well-formed patches. */
  lemma DiffWellFormed(s: State, afterVersion: int)
    requires s.Monotone()
    ensures WellFormed(DiffOf(s, afterVersion))
  {
    var after := if afterVersion > s.Version() then 0 else afterVersion;
    NewerIncreasing(s.opList, after);
  }

  /** Appending a strictly increasing tail stamped above the version keeps a map well-versioned. */
  lemma AppendedAllMonotone(s: State, tail: seq<Op>)
    requires s.Monotone() && Increasing(tail)
    requires forall i :: 0 <= i < |tail| ==> tail[i].val.t > s.Version()
    ensures s.(opList := s.opList + tail).Monotone()
  {
    var log := s.opList + tail;
    forall i, j | 0 <= i < j < |log|
      ensures log[i].val.t < log[j].val.t
    {
      if j >= |s.opList| && i < |s.opList| {
        assert log[i].val.t <= s.Version();
      }
    }
  }

  /** Patching a well-versioned map with a well-formed patch keeps it
      well-versioned, and leaves the log within its bound. */
  lemma PatchMonotone(s: State, p: Patch, maxSize: int)
    requires 0 <= maxSize && s.Monotone() && WellFormed(p)
    ensures PatchOf(s, p, maxSize).Monotone()
    ensures |PatchOf(s, p, maxSize).opList| <= maxSize
  {
    var base := Rebased(s, p);
    var tail := Newer(p.ops, base.Version());
    NewerIncreasing(p.ops, base.Version());
    NewerMembers(p.ops, base.Version());
    forall i | 0 <= i < |tail|
      ensures tail[i].val.t > base.Version()
    {
      assert tail[i] in tail;
    }
    AppendedAllMonotone(base, tail);
    CompactMonotone(base.(opList := base.opList + tail), maxSize, false);
  }

  /** Full resync round trip: a patch produced for a baseline before the
      snapshot (the -1 and 0 of a fresh replica, or a version from the
      future) turns ANY receiver into the sender's state, compacted; the
      receiver's own data, pending or not, is discarded. */
  lemma RoundTrip(s: State, r: State, afterVersion: int, maxSize: int)
    requires 0 <= maxSize && s.Monotone()
    requires afterVersion < s.achievedVersion || afterVersion > s.Version()
    ensures PatchOf(r, DiffOf(s, afterVersion), maxSize) == Compact(s, maxSize, false)
    ensures PatchOf(r, DiffOf(s, afterVersion), maxSize).Live() == s.Live()
  {
    DiffFull(s, afterVersion);
    PatchFull(r, s, maxSize);
  }

  /** A patch that carries a snapshot replaces the receiver wholesale: the
      result is the patch's snapshot with its newer operations replayed on
      top, whatever the receiver held, pending operations included. */
  lemma PatchRebase(r: State, other: State, p: Patch, maxSize: int)
    requires 0 <= maxSize && (|p.achieved| > 0 || p.achievedVersion > 0)
    ensures PatchOf(r, p, maxSize).Live() == Replay(p.achieved, Newer(p.ops, p.achievedVersion))
    ensures PatchOf(r, p, maxSize) == PatchOf(other, p, maxSize)
  {
    assert [] + Newer(p.ops, p.achievedVersion) == Newer(p.ops, p.achievedVersion);
  }

  /** A patch without a snapshot keeps the receiver's data: the incoming
      operations not newer than the receiver's version are dropped, and the
      rest are replayed on top of its live contents, in patch order. */
  lemma PatchTail(r: State, p: Patch, maxSize: int)
    requires 0 <= maxSize && |p.achieved| == 0 && p.achievedVersion <= 0
    ensures PatchOf(r, p, maxSize).Live() == Replay(r.Live(), Newer(p.ops, r.Version()))
  {
    assert Rebased(r, p) == r;
    ReplayConcat(r.achieved, r.opList, Newer(p.ops, r.Version()));
  }

  /** When every incoming operation is newer than the receiver, none is dropped. */
  lemma PatchTailAllNewer(r: State, p: Patch, maxSize: int)
    requires 0 <= maxSize && |p.achieved| == 0 && p.achievedVersion <= 0
    requires forall i :: 0 <= i < |p.ops| ==> p.ops[i].val.t > r.Version()
    ensures PatchOf(r, p, maxSize).Live() == Replay(r.Live(), p.ops)
  {
    PatchTail(r, p, maxSize);
    NewerSuffix(p.ops, r.Version(), 0);
    assert p.ops[0..] == p.ops;
  }

  /** The Diff for the version reached after the first `k` pending operations
      carries no snapshot and exactly the pending operations from `k` on. */
  lemma DiffSuffix(s: State, k: int)
    requires s.Monotone() && 0 <= k <= |s.opList|
    ensures var v := State(s.achieved, s.achievedVersion, s.opList[..k]).Version();
      && DiffOf(s, v) == Patch(map[], 0, s.opList[k..])
      && forall i :: 0 <= i < |s.opList[k..]| ==> s.opList[k..][i].val.t > v
  {
    var v := State(s.achieved, s.achievedVersion, s.opList[..k]).Version();
    assert v == if k > 0 then s.opList[k - 1].val.t else s.achievedVersion;
    VersionIsNewest(s);
    assert s.achievedVersion <= v <= s.Version();
    if k == |s.opList| {
      assert v == s.Version();
      assert s.opList[k..] == [];
    } else {
      assert v < s.opList[|s.opList| - 1].val.t;
      PrefixSplit(s, k);
      assert DiffOf(s, v) == Patch(map[], 0, Newer(s.opList, v));
      forall i | 0 <= i < |s.opList[k..]|
        ensures s.opList[k..][i].val.t > v
      {
        assert s.opList[k..][i] == s.opList[k + i];
      }
    }
  }

  /** Incremental catch-up: a replica whose contents and version are those of
      the sender after its first `k` pending operations reaches the sender's
      live contents by patching with the Diff for its own version. */
  lemma CatchUp(s: State, k: int, r: State, maxSize: int)
    requires 0 <= maxSize && s.Monotone() && 0 <= k <= |s.opList|
    requires r.Live() == State(s.achieved, s.achievedVersion, s.opList[..k]).Live()
    requires r.Version() == State(s.achieved, s.achievedVersion, s.opList[..k]).Version()
    ensures PatchOf(r, DiffOf(s, r.Version()), maxSize).Live() == s.Live()
  {
    DiffSuffix(s, k);
    PatchTailAllNewer(r, DiffOf(s, r.Version()), maxSize);
    ReplaySplit(s.achieved, s.opList, k);
  }

  /** One named replica, with the data updated in place. */
  class SyncMap {
    var achieved: map<string, Value>
    var achievedVersion: int
    var opList: seq<Op>
    const opListMaxSize: int

    /** After every exported operation the log is within its bound. */
    ghost predicate Valid()
      reads this
    {
      1 <= opListMaxSize && |opList| <= opListMaxSize
    }

    /** The data of this map as a value. */
    function Model(): State
      reads this
    {
      State(achieved, achievedVersion, opList)
    }

    /** New(op_list_max_size): a bound below 1 is a panic in the source, so a
        precondition here. The map starts empty at version 1. */
    constructor (opListMaxSize: int)
      requires 1 <= opListMaxSize
      ensures Valid() && Model().Monotone()
      ensures this.opListMaxSize == opListMaxSize
      ensures Model() == State(map[], 1, [])
      ensures Model().Version() == 1 && Model().Live() == map[]
    {
      this.opListMaxSize := opListMaxSize;
      achieved := map[];
      achievedVersion := 1;
      opList := [];
    }

    /** achieve(force), in place. */
    method Achieve(force: bool)
      requires 0 <= opListMaxSize
      modifies this
      ensures Model() == Compact(old(Model()), opListMaxSize, force)
    {
      while |opList| > opListMaxSize || (force && |opList| > 0)
        invariant Compact(Model(), opListMaxSize, force) == Compact(old(Model()), opListMaxSize, force)
        decreases |opList|
      {
        var op := opList[0];
        opList := opList[1..];
        match op.kind {
          case Set => achieved := achieved[op.k := op.val];
          case Del => achieved := achieved - {op.k};
        }
        achievedVersion := op.val.t;
      }
    }

    /** ForceAchieve: fold the whole log into the snapshot. */
    method ForceAchieve()
      requires Valid()
      modifies this
      ensures Valid() && Model() == Compact(old(Model()), opListMaxSize, true)
      ensures opList == [] && achieved == old(Model().Live()) && achievedVersion == old(Model().Version())
      ensures old(Model().Monotone()) ==> Model().Monotone()
    {
      if Model().Monotone() {
        CompactMonotone(Model(), opListMaxSize, true);
      }
      Achieve(true);
    }

    /** SetWithOptions: append a Set stamped with the next version and with
        deadline `nowUnix` plus the lifetime, then compact. */
    method SetWithOptions(key: string, value: string, priority: int, autoremove: int, nowMicros: int, nowUnix: int)
      requires Valid()
      modifies this
      ensures Valid()
      ensures var stored := Value(value, NextVersionAfter(old(Model().Version()), nowMicros), priority, Lifetime(autoremove) + nowUnix);
        && Model() == Mutated(old(Model()), Op(OpType.Set, key, stored), opListMaxSize)
        && Model().Live() == old(Model().Live())[key := stored]
      ensures Model().Version() > old(Model().Version())
      ensures old(Model().Monotone()) ==> Model().Monotone()
    {
      var ttl := autoremove;
      if ttl <= 0 {
        ttl := DefaultLifetime;
      }
      ghost var s0 := Model();
      ghost var stored := Value(value, NextVersionAfter(s0.Version(), nowMicros), priority, Lifetime(autoremove) + nowUnix);
      var op := Op(OpType.Set, key, Value(value, NextVersionAfter(Model().Version(), nowMicros), priority, ttl + nowUnix));
      assert op == Op(OpType.Set, key, stored);
      MutatedEffect(s0, op, opListMaxSize);
      assert Apply(s0.Live(), op) == s0.Live()[key := stored];
      Mutate(op);
      assert Model() == Mutated(s0, op, opListMaxSize);
    }

    /** The append-then-achieve(false) step shared by SetWithOptions and del(key, true). */
    method Mutate(op: Op)
      requires 0 <= opListMaxSize
      modifies this
      ensures Model() == Mutated(old(Model()), op, opListMaxSize)
    {
      opList := opList + [op];
      Achieve(false);
    }

    /** SetWithPriority: SetWithOptions with the default lifetime. */
    method SetWithPriority(key: string, value: string, priority: int, nowMicros: int, nowUnix: int)
      requires Valid()
      modifies this
      ensures Valid()
      ensures var stored := Value(value, NextVersionAfter(old(Model().Version()), nowMicros), priority, DefaultLifetime + nowUnix);
        && Model() == Mutated(old(Model()), Op(OpType.Set, key, stored), opListMaxSize)
        && Model().Live() == old(Model().Live())[key := stored]
      ensures Model().Version() > old(Model().Version())
      ensures old(Model().Monotone()) ==> Model().Monotone()
    {
      SetWithOptions(key, value, priority, 0, nowMicros, nowUnix);
    }

    /** Set: SetWithOptions with priority 0 and the default lifetime. */
    method Set(key: string, value: string, nowMicros: int, nowUnix: int)
      requires Valid()
      modifies this
      ensures Valid()
      ensures var stored := Value(value, NextVersionAfter(old(Model().Version()), nowMicros), 0, DefaultLifetime + nowUnix);
        && Model() == Mutated(old(Model()), Op(OpType.Set, key, stored), opListMaxSize)
        && Model().Live() == old(Model().Live())[key := stored]
      ensures Model().Version() > old(Model().Version())
      ensures old(Model().Monotone()) ==> Model().Monotone()
    {
      SetWithOptions(key, value, 0, 0, nowMicros, nowUnix);
    }

    /** del(key, try_achieve): append a Del stamped with the next version,
        compacting only when asked to. */
    method AppendDel(key: string, tryAchieve: bool, nowMicros: int)
      requires 0 <= opListMaxSize
      modifies this
      ensures var op := Op(OpType.Del, key, Value("", NextVersionAfter(old(Model().Version()), nowMicros), 0, 0));
        Model() == if tryAchieve then Mutated(old(Model()), op, opListMaxSize) else Appended(old(Model()), op)
      ensures Model().Live() == old(Model().Live()) - {key}
      ensures Model().Version() == NextVersionAfter(old(Model().Version()), nowMicros)
      ensures old(Model().Monotone()) ==> Model().Monotone()
    {
      var op := Op(OpType.Del, key, Value("", NextVersionAfter(Model().Version(), nowMicros), 0, 0));
      ghost var s0 := Model();
      AppendedEffect(s0, op);
      opList := opList + [op];
      assert Model() == Appended(s0, op);
      if tryAchieve {
        if Model().Monotone() {
          CompactMonotone(Model(), opListMaxSize, false);
        }
        Achieve(false);
      }
    }

    /** Del: delete `key` and compact. */
    method Del(key: string, nowMicros: int)
      requires Valid()
      modifies this
      ensures Valid()
      ensures Model() == Mutated(old(Model()), Op(OpType.Del, key, Value("", NextVersionAfter(old(Model().Version()), nowMicros), 0, 0)), opListMaxSize)
      ensures Model().Live() == old(Model().Live()) - {key}
      ensures Model().Version() > old(Model().Version())
      ensures old(Model().Monotone()) ==> Model().Monotone()
    {
      ghost var op := Op(OpType.Del, key, Value("", NextVersionAfter(Model().Version(), nowMicros), 0, 0));
      MutatedEffect(Model(), op, opListMaxSize);
      AppendDel(key, true, nowMicros);
    }

    /** get / Get: scan the log from newest to oldest; the first operation on
        the key decides, else the snapshot is read. The result is the key's
        live value, the zero value when it is not live. */
    method Get(key: string) returns (r: Value)
      ensures r == Lookup(Model().Live(), key)
    {
      var i := |opList|;
      while i > 0
        invariant 0 <= i <= |opList|
        invariant forall j :: i <= j < |opList| ==> opList[j].k != key
      {
        var op := opList[i - 1];
        if op.k == key {
          match op.kind {
            case Set => r := op.val;
            case Del => r := ZeroValue;
          }
          ReplayLastTouch(achieved, opList, i - 1, key);
          return;
        }
        i := i - 1;
      }
      ReplayUntouched(achieved, opList, key);
      r := if key in achieved then achieved[key] else ZeroValue;
    }

    /** keys: start from the snapshot's keys and replay the log front to back,
        adding on Set and removing on Del. The result is the live key set. */
    method Keys() returns (ks: set<string>)
      ensures ks == Model().Live().Keys
    {
      ks := achieved.Keys;
      var i := 0;
      while i < |opList|
        invariant 0 <= i <= |opList|
        invariant ks == Replay(achieved, opList[..i]).Keys
      {
        var op := opList[i];
        ReplaySnoc(achieved, opList[..i], op);
        assert opList[..i + 1] == opList[..i] + [op];
        match op.kind {
          case Set => ks := ks + {op.k};
          case Del => ks := ks - {op.k};
        }
        i := i + 1;
      }
      assert opList[..i] == opList;
    }

    /** Size: the number of live keys. */
    method Size() returns (n: nat)
      ensures n == |Model().Live().Keys|
      ensures n == 0 <==> Model().Live() == map[]
    {
      var ks := Keys();
      n := |ks|;
      if n == 0 {
        assert Model().Live().Keys == {};
      } else {
        var k :| k in ks;
      }
    }

    /** AutoRemove: delete every live key whose deadline has passed at
        `nowUnix`, then compact once. */
    method AutoRemove(nowMicros: int, nowUnix: int)
      requires Valid()
      modifies this
      ensures Valid()
      ensures Model().Live() == old(Model().Live()) - Expired(old(Model().Live()), nowUnix)
      ensures Model().Version() >= old(Model().Version())
      ensures old(Model().Monotone()) ==> Model().Monotone()
    {
      ghost var live0 := Model().Live();
      var todo := Keys();
      while todo != {}
        invariant todo <= live0.Keys
        invariant Model().Live() == live0 - (Expired(live0, nowUnix) - todo)
        invariant Model().Version() >= old(Model().Version())
        invariant old(Model().Monotone()) ==> Model().Monotone()
        decreases todo
      {
        var k :| k in todo;
        var v := Get(k);
        assert v == live0[k];
        ExpireStep(live0, nowUnix, todo, k);
        if nowUnix > v.deadline {
          AppendDel(k, false, nowMicros);
        }
        todo := todo - {k};
      }
      if Model().Monotone() {
        CompactMonotone(Model(), opListMaxSize, false);
      }
      Achieve(false);
    }

    /** Diff(after_version), building the patch with a walk over the log. */
    method Diff(afterVersion: int) returns (p: Patch)
      ensures p == DiffOf(Model(), afterVersion)
    {
      p := EmptyPatch;
      var version := Model().Version();
      var after := afterVersion;
      if after > version {
        after := 0;
      }
      if after == version {
        return;
      }
      if after < achievedVersion {
        p := p.(achieved := achieved, achievedVersion := achievedVersion);
      }
      var i := 0;
      while i < |opList|
        invariant 0 <= i <= |opList|
        invariant p.achieved == (if after < achievedVersion then achieved else map[])
        invariant p.achievedVersion == (if after < achievedVersion then achievedVersion else 0)
        invariant p.ops == Newer(opList[..i], after)
      {
        assert opList[..i + 1][..i] == opList[..i];
        if opList[i].val.t > after {
          p := p.(ops := p.ops + [opList[i]]);
        }
        i := i + 1;
      }
      assert opList[..i] == opList;
    }

    /** Patch(patch): rebase on the incoming snapshot when there is one, append
        the incoming operations newer than the version reached, then compact. */
    method Patch(p: Patch)
      requires Valid()
      modifies this
      ensures Valid() && Model() == PatchOf(old(Model()), p, opListMaxSize)
      ensures old(Model().Monotone()) && WellFormed(p) ==> Model().Monotone()
    {
      ghost var s0 := Model();
      if |p.achieved| > 0 || p.achievedVersion > 0 {
        achieved := p.achieved;
        achievedVersion := p.achievedVersion;
        opList := [];
      }
      ghost var base := Model();
      assert base == Rebased(s0, p);
      var version := Model().Version();
      var i := 0;
      while i < |p.ops|
        invariant 0 <= i <= |p.ops|
        invariant Model() == base.(opList := base.opList + Newer(p.ops[..i], version))
      {
        assert p.ops[..i + 1][..i] == p.ops[..i];
        if p.ops[i].val.t > version {
          opList := opList + [p.ops[i]];
        }
        i := i + 1;
      }
      assert p.ops[..i] == p.ops;
      Achieve(false);
      if s0.Monotone() && WellFormed(p) {
        PatchMonotone(s0, p, opListMaxSize);
      }
    }
  }
}
