/**
  Values, operations and the replay of an operation log, as the engine in
  syncmap.go stores them. A log is replayed front to back over a snapshot;
  everything a reader can observe of a map is the result of that replay.
 */
module OpLog {

  /** The payload of one key: the value, its version stamp, a priority that
      the engine only carries along, and an auto-remove deadline in unix seconds. */
  datatype Value = Value(v: string, t: int, priority: int, deadline: int)

  /** Go's zero `Value{}`: what a read of an absent or deleted key yields. */
  const ZeroValue := Value("", 0, 0, 0)

  /** The two kinds of mutation. The source's op type is a string; an op
      carrying any other string, which only an incoming patch can supply,
      is not represented. */
  datatype OpType = Set | Del

  /** One mutation; its version lives in `val.t`. */
  datatype Op = Op(kind: OpType, k: string, val: Value)

  /** Reading a Go map: the stored value, or the zero value when the key is absent. */
  function Lookup(m: map<string, Value>, key: string): Value
  {
    if key in m then m[key] else ZeroValue
  }

  /** What a read of `op.k` sees right after `op`. */
  function Effect(op: Op): Value
  {
    match op.kind
    case Set => op.val
    case Del => ZeroValue
  }

  /** Folding one operation into a snapshot: a Set inserts or overwrites its
      key, a Del removes it, and no other key is touched. */
  function Apply(m: map<string, Value>, op: Op): (r: map<string, Value>)
    ensures op.k in r <==> op.kind == Set
    ensures Lookup(r, op.k) == Effect(op)
    ensures forall key :: key != op.k ==> (key in r <==> key in m) && Lookup(r, key) == Lookup(m, key)
  {
    match op.kind
    case Set => m[op.k := op.val]
    case Del => m - {op.k}
  }

  /** Replaying `ops` front to back over the snapshot `m`. */
  function Replay(m: map<string, Value>, ops: seq<Op>): map<string, Value>
    decreases |ops|
  {
    if ops == [] then m else Replay(Apply(m, ops[0]), ops[1..])
  }

  /** Replaying a concatenation is replaying its parts one after the other. */
  lemma {:induction false} ReplayConcat(m: map<string, Value>, a: seq<Op>, b: seq<Op>)
    ensures Replay(m, a + b) == Replay(Replay(m, a), b)
    decreases |a|
  {
    if a == [] {
      assert a + b == b;
    } else {
      assert (a + b)[0] == a[0];
      assert (a + b)[1..] == a[1..] + b;
      ReplayConcat(Apply(m, a[0]), a[1..], b);
    }
  }

  /** Replaying a log's first `k` entries and then the rest is replaying it whole. */
  lemma ReplaySplit(m: map<string, Value>, ops: seq<Op>, k: int)
    requires 0 <= k <= |ops|
    ensures Replay(Replay(m, ops[..k]), ops[k..]) == Replay(m, ops)
  {
    assert ops[..k] + ops[k..] == ops;
    ReplayConcat(m, ops[..k], ops[k..]);
  }

  /** Appending one operation to a log applies it to the replayed state. */
  lemma ReplaySnoc(m: map<string, Value>, ops: seq<Op>, op: Op)
    ensures Replay(m, ops + [op]) == Apply(Replay(m, ops), op)
  {
    ReplayConcat(m, ops, [op]);
    assert [op][1..] == [];
  }

  /** Operations on other keys leave a key's presence and value alone. */
  lemma {:induction false} ReplayUntouched(m: map<string, Value>, ops: seq<Op>, key: string)
    requires forall i :: 0 <= i < |ops| ==> ops[i].k != key
    ensures key in Replay(m, ops) <==> key in m
    ensures Lookup(Replay(m, ops), key) == Lookup(m, key)
    decreases |ops|
  {
    if ops != [] {
      ReplayUntouched(Apply(m, ops[0]), ops[1..], key);
    }
  }

  /** The last operation on a key decides what the replayed state holds for it. */
  lemma ReplayLastTouch(m: map<string, Value>, ops: seq<Op>, j: int, key: string)
    requires 0 <= j < |ops| && ops[j].k == key
    requires forall i :: j < i < |ops| ==> ops[i].k != key
    ensures key in Replay(m, ops) <==> ops[j].kind == Set
    ensures Lookup(Replay(m, ops), key) == Effect(ops[j])
  {
    var before, after := ops[..j], ops[j + 1..];
    assert ops == (before + [ops[j]]) + after;
    ReplayConcat(m, before + [ops[j]], after);
    ReplaySnoc(m, before, ops[j]);
    ReplayUntouched(Replay(m, before + [ops[j]]), after, key);
  }

  /** Version stamps strictly increase along the sequence. */
  ghost predicate Increasing(ops: seq<Op>)
  {
    forall i, j :: 0 <= i < j < |ops| ==> ops[i].val.t < ops[j].val.t
  }

  /** The entries of `ops` stamped later than `after`, in their order. */
  function Newer(ops: seq<Op>, after: int): (r: seq<Op>)
    ensures |r| <= |ops|
    decreases |ops|
  {
    if ops == [] then []
    else
      var init, last := ops[..|ops| - 1], ops[|ops| - 1];
      Newer(init, after) + (if last.val.t > after then [last] else [])
  }

  /** Exactly the entries stamped later than `after` are selected. */
  lemma {:induction false} NewerMembers(ops: seq<Op>, after: int)
    ensures forall op :: op in Newer(ops, after) <==> op in ops && op.val.t > after
    decreases |ops|
  {
    if ops != [] {
      var init, last := ops[..|ops| - 1], ops[|ops| - 1];
      assert ops == init + [last];
      NewerMembers(init, after);
    }
  }

  /** Selecting from an increasing sequence keeps it increasing. */
  lemma {:induction false} NewerIncreasing(ops: seq<Op>, after: int)
    requires Increasing(ops)
    ensures Increasing(Newer(ops, after))
    decreases |ops|
  {
    if ops != [] {
      var init, last := ops[..|ops| - 1], ops[|ops| - 1];
      NewerIncreasing(init, after);
      var prefix := Newer(init, after);
      NewerMembers(init, after);
      forall i | 0 <= i < |prefix|
        ensures prefix[i].val.t < last.val.t
      {
        assert prefix[i] in init;
      }
    }
  }

  /** In a log split at `k` into entries not newer and newer than `after`,
      the newer entries are exactly the suffix from `k`. */
  lemma {:induction false} NewerSuffix(ops: seq<Op>, after: int, k: int)
    requires 0 <= k <= |ops|
    requires forall i :: 0 <= i < k ==> ops[i].val.t <= after
    requires forall i :: k <= i < |ops| ==> ops[i].val.t > after
    ensures Newer(ops, after) == ops[k..]
    decreases |ops|
  {
    if ops != [] {
      var init, last := ops[..|ops| - 1], ops[|ops| - 1];
      assert Newer(ops, after) == Newer(init, after) + (if last.val.t > after then [last] else []);
      if k == |ops| {
        NewerSuffix(init, after, k - 1);
        assert Newer(ops, after) == init[k - 1..];
      } else {
        NewerSuffix(init, after, k);
        assert ops[k..] == init[k..] + [last];
      }
    }
  }
}
