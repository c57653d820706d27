/**
  The scenario of syncmap_test.go as a verified client: a snapshot taken with
  Diff(-1) restores, through Patch, a key deleted after it was taken.
 */
module SyncmapScenario {
  import opened OpLog
  import opened Syncmap

  /** The test's first half: `New(2)` and four Sets. Every clock reading is
      the same `nowMicros`/`nowUnix`; the versions still increase through
      next_version's fallback. */
  method Populate(nowMicros: int, nowUnix: int) returns (sm: SyncMap)
    ensures fresh(sm) && sm.Valid() && sm.opListMaxSize == 2 && sm.Model().Monotone()
    ensures Lookup(sm.Model().Live(), "hello").v == "syncmap"
    ensures Lookup(sm.Model().Live(), "name").v == "mofon"
    ensures Lookup(sm.Model().Live(), "want to delete").v == "nonsense"
  {
    sm := new SyncMap(2);
    sm.Set("hello", "syncmap", nowMicros, nowUnix);
    assert sm.Model().Live()["hello"].v == "syncmap";
    sm.Set("name", "mofon", nowMicros, nowUnix);
    assert sm.Model().Live()["hello"].v == "syncmap";
    assert sm.Model().Live()["name"].v == "mofon";
    sm.Set("email", "immofon@163.com", nowMicros, nowUnix);
    assert |"email"| == 5 && |"hello"| == 5 && "email"[0] != "hello"[0];
    assert sm.Model().Live()["hello"].v == "syncmap" && sm.Model().Live()["name"].v == "mofon";
    sm.Set("want to delete", "nonsense", nowMicros, nowUnix);
    assert sm.Model().Live()["hello"].v == "syncmap" && sm.Model().Live()["name"].v == "mofon";
  }

  /** The test's second half: take `Diff(-1)`, delete a key, read the map, then
      `Patch` with the earlier Diff and read the deleted key again. */
  method RestoreDeletedKey(nowMicros: int, nowUnix: int) returns (hello: string, name: string, deleted: string, restored: string)
    ensures hello == "syncmap" && name == "mofon"
    ensures deleted == ""
    ensures restored == "nonsense"
  {
    var sm := Populate(nowMicros, nowUnix);
    ghost var taken := sm.Model();
    var backup := sm.Diff(-1);
    sm.Del("want to delete", nowMicros);
    assert Lookup(sm.Model().Live(), "hello") == Lookup(taken.Live(), "hello");
    assert Lookup(sm.Model().Live(), "name") == Lookup(taken.Live(), "name");

    var v := sm.Get("hello");
    hello := v.v;
    v := sm.Get("name");
    name := v.v;
    v := sm.Get("want to delete");
    deleted := v.v;

    ghost var receiver := sm.Model();
    RoundTrip(taken, receiver, -1, 2);
    sm.Patch(backup);
    v := sm.Get("want to delete");
    restored := v.v;
  }
}
