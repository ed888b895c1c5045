/** The cache without its capacity: a map with lazy expiry, as the reference for the real one. */
module MapCache {
  import opened Instants
  import opened Wire
  import opened Recency
  import opened Inclusion
  import Retention

  type Table = map<Key, CacheEntry>

  function Lookup(m: Table, key: Key): Option<CacheEntry> {
    if key in m then Some(m[key]) else None
  }

  function MapStep(m: Table, op: Op): Table {
    match op
    case Get(key, now) => if key in m && Expired(m[key], now) then m - {key} else m
    case Set(key, e) => m[key := e]
  }

  function MapRun(ops: seq<Op>): Table {
    if ops == [] then map[] else MapStep(MapRun(ops[..|ops| - 1]), ops[|ops| - 1])
  }

  function KeysSet(ops: seq<Op>): set<Key> {
    set i | 0 <= i < |ops| && ops[i].Set? :: ops[i].key
  }

  ghost predicate Same(l: Recency, m: Table) {
    forall key :: Find(l, key) == Lookup(m, key)
  }

  lemma StepSame(cap: int, l: Recency, m: Table, op: Op)
    requires 0 < cap && Inv(cap, l) && Same(l, m)
    requires op.Set? && Find(l, op.key).None? ==> |l| < cap
    ensures Same(Step(cap, l, op), MapStep(m, op))
  {
    hide Find, Without, Distinct;
    assert Find(l, op.key) == Lookup(m, op.key);
    WithoutShape(l, op.key);
    FindIsMembership(Without(l, op.key), op.key);
    forall key
      ensures Find(Step(cap, l, op), key) == Lookup(MapStep(m, op), key)
    {
      assert Find(l, key) == Lookup(m, key);
      if key != op.key {
        Retention.OthersGone(l, op.key, key);
      }
      match op
      case Get(x, _) =>
        if x in m {
          FindInFront(Item(x, m[x]), Without(l, x), key);
        }
      case Set(x, e) =>
        FindInFront(Item(x, e), Without(l, x), key);
        FindInFront(Item(x, e), l, key);
    }
  }

  lemma {:induction false} HeldKeysWereSet(cap: int, ops: seq<Op>)
    ensures Keys(Run(cap, ops)) <= KeysSet(ops)
  {
    Retention.HeldIsLastSet(cap, ops);
    var l := Run(cap, ops);
    forall key | key in Keys(l)
      ensures key in KeysSet(ops)
    {
      var i :| 0 <= i < |l| && l[i].key == key;
      assert l[i] in l;
      var j := Retention.LastSetIsASet(ops, key);
    }
  }

  /** A cache with room for every key of the trace is the map. */
  lemma {:induction false} RoomyCacheIsMap(cap: int, ops: seq<Op>)
    requires 0 < cap && |KeysSet(ops)| <= cap
    ensures Same(Run(cap, ops), MapRun(ops))
  {
    if ops == [] {
    } else {
      var before, op := ops[..|ops| - 1], ops[|ops| - 1];
      var l := Run(cap, before);
      assert KeysSet(before) <= KeysSet(ops) by {
        forall key | key in KeysSet(before)
          ensures key in KeysSet(ops)
        {
          var i :| 0 <= i < |before| && before[i].Set? && before[i].key == key;
          assert ops[i] == before[i];
        }
      }
      Retention.SmallerSet(KeysSet(before), KeysSet(ops));
      RoomyCacheIsMap(cap, before);
      RunInv(cap, before);
      if op.Set? && Find(l, op.key).None? {
        HeldKeysWereSet(cap, before);
        FindIsMembership(l, op.key);
        Retention.KeysCount(l);
        assert op.key in KeysSet(ops);
        Retention.SmallerSet(Keys(l) + {op.key}, KeysSet(ops));
      }
      StepSame(cap, l, MapRun(before), op);
    }
  }

  /** Whatever its capacity, the cache answers as the map does or not at all. */
  lemma CacheOnlyForgets(cap: int, ops: seq<Op>, key: Key, now: Instant)
    requires Answer(cap, Run(cap, ops), key, now).Some?
    ensures key in MapRun(ops) && Answer(cap, Run(cap, ops), key, now) == Some(MapRun(ops)[key])
    ensures MapRun(ops)[key].expiresAt == ZERO || now <= MapRun(ops)[key].expiresAt
  {
    var m := if cap >= |KeysSet(ops)| then cap else |KeysSet(ops)|;
    RoomyCacheIsMap(m, ops);
    CapacityInclusion(cap, m, ops);
    FindInLarger(Run(cap, ops), Run(m, ops), key);
    assert Find(Run(m, ops), key) == Lookup(MapRun(ops), key);
  }
}
