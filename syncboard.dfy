/**
  The name-to-map registry of syncboard/main.go: maps are created on first
  write and reclaimed once they hold no live key.
 */
module Syncboard {
  import opened OpLog
  import opened Syncmap

  /** The log bound of every map the registry creates. */
  const DefaultOpListSize := 50

  class SyncMaps {
    var maps: map<string, SyncMap>

    /** Every stored map is within its log bound and well-versioned, so the
        maps handed out can be written to. */
    ghost predicate Valid()
      reads this, maps.Values
    {
      forall name :: name in maps ==> maps[name].Valid() && maps[name].Model().Monotone()
    }

    /** NewSyncMaps: an empty registry. */
    constructor ()
      ensures Valid() && maps == map[]
    {
      maps := map[];
    }

    /** Get: lookup only; null when no map has that name. */
    method Get(name: string) returns (m: SyncMap?)
      requires Valid()
      ensures m != null <==> name in maps
      ensures m != null ==> m.Valid() && m.Model().Monotone()
      ensures name in maps ==> m == maps[name]
    {
      m := if name in maps then maps[name] else null;
    }

    /** Create: get-or-create. A new map is seeded with a Del of its own name
        and force-compacted, so it starts with an empty log and no live key at
        a version above 1. An existing map is returned as it is. */
    method Create(name: string, nowMicros: int) returns (m: SyncMap)
      requires Valid()
      modifies this
      ensures Valid() && m.Valid() && m.Model().Monotone()
      ensures name in maps && maps[name] == m
      ensures name in old(maps) ==> m == old(maps)[name] && maps == old(maps)
      ensures name !in old(maps) ==> fresh(m) && maps == old(maps)[name := m]
      ensures name !in old(maps) ==>
        && m.Valid() && m.Model().Monotone() && m.opListMaxSize == DefaultOpListSize
        && m.opList == [] && m.Model().Live() == map[]
        && m.Model().Version() == NextVersionAfter(1, nowMicros) > 1
    {
      if name in maps {
        m := maps[name];
        return;
      }
      m := new SyncMap(DefaultOpListSize);
      maps := maps[name := m];
      m.Del(name, nowMicros);
      m.ForceAchieve();
    }

    /** GC: walk a copy of the registry and drop every map whose Size is 0;
        maps with a live key stay under their name, as the same object. */
    method GC()
      requires Valid()
      modifies this
      ensures Valid()
      ensures forall name :: name in maps <==> name in old(maps) && old(maps)[name].Model().Live() != map[]
      ensures forall name :: name in maps ==> maps[name] == old(maps)[name]
    {
      var clone := maps;
      var todo := clone.Keys;
      while todo != {}
        invariant todo <= clone.Keys
        invariant forall name :: name in maps <==> name in clone && (name in todo || clone[name].Model().Live() != map[])
        invariant forall name :: name in maps ==> maps[name] == clone[name]
        decreases todo
      {
        var name :| name in todo;
        var size := clone[name].Size();
        if size == 0 {
          maps := maps - {name};
        }
        todo := todo - {name};
      }
    }
  }
}
