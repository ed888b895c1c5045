/** The cache of cache.go on values: a sequence of items, most recently used first, with the
    clock an explicit argument of every lookup. */
module Recency {
  import opened Instants
  import opened Wire

  type Key = string

  datatype Item = Item(key: Key, entry: CacheEntry)

  type Recency = seq<Item>

  datatype Op =
    | Get(key: Key, now: Instant)
    | Set(key: Key, entry: CacheEntry)

  /** An entry is still served at its expiry instant and not after it. */
  predicate Expired(e: CacheEntry, now: Instant) {
    e.expiresAt != ZERO && now > e.expiresAt
  }

  function Find(l: Recency, key: Key): Option<CacheEntry> {
    if l == [] then None
    else if l[0].key == key then Some(l[0].entry)
    else Find(l[1..], key)
  }

  function Without(l: Recency, key: Key): Recency {
    if l == [] then []
    else if l[0].key == key then Without(l[1..], key)
    else [l[0]] + Without(l[1..], key)
  }

  /** What `Get` answers. */
  function Answer(cap: int, l: Recency, key: Key, now: Instant): Option<CacheEntry> {
    if cap <= 0 then None
    else match Find(l, key)
      case None => None
      case Some(e) => if Expired(e, now) then None else Some(e)
  }

  /** The list `Get` leaves: a hit moves to the front, an expired item goes, a miss inserts nothing. */
  function AfterGet(cap: int, l: Recency, key: Key, now: Instant): Recency {
    if cap <= 0 then l
    else match Find(l, key)
      case None => l
      case Some(e) => if Expired(e, now) then Without(l, key) else [Item(key, e)] + Without(l, key)
  }

  function Evict(cap: int, l: Recency): Recency {
    if |l| >= cap && l != [] then l[..|l| - 1] else l
  }

  /** The list `Set` leaves: the item in front; only a new key evicts. */
  function AfterSet(cap: int, l: Recency, key: Key, e: CacheEntry): Recency {
    if cap <= 0 then l
    else if Find(l, key).Some? then [Item(key, e)] + Without(l, key)
    else [Item(key, e)] + Evict(cap, l)
  }

  function Step(cap: int, l: Recency, op: Op): Recency {
    match op
    case Get(key, now) => AfterGet(cap, l, key, now)
    case Set(key, e) => AfterSet(cap, l, key, e)
  }

  /** The list after a run of operations on a new cache. */
  function Run(cap: int, ops: seq<Op>): Recency {
    if ops == [] then [] else Step(cap, Run(cap, ops[..|ops| - 1]), ops[|ops| - 1])
  }

  /** The answer of the i-th operation of a run; a `Set` answers nothing. */
  function AnswerAt(cap: int, ops: seq<Op>, i: nat): Option<CacheEntry>
    requires i < |ops|
  {
    match ops[i]
    case Get(key, now) => Answer(cap, Run(cap, ops[..i]), key, now)
    case Set(_, _) => None
  }

  // -- the shape every reachable list has --

  ghost predicate Distinct(l: Recency) {
    forall i, j :: 0 <= i < j < |l| ==> l[i].key != l[j].key
  }

  function Room(cap: int): nat {
    if cap <= 0 then 0 else cap
  }

  ghost predicate Inv(cap: int, l: Recency) {
    Distinct(l) && |l| <= Room(cap)
  }

  function Keys(l: Recency): set<Key> {
    set i | 0 <= i < |l| :: l[i].key
  }

  lemma {:induction false} FindIsMembership(l: Recency, key: Key)
    ensures Find(l, key).Some? <==> key in Keys(l)
    ensures Find(l, key).Some? ==> Item(key, Find(l, key).value) in l
  {
    if l == [] {
    } else {
      FindIsMembership(l[1..], key);
      assert l == [l[0]] + l[1..];
      assert forall i :: 1 <= i < |l| ==> l[i] == l[1..][i - 1];
    }
  }

  lemma FindInFront(item: Item, l: Recency, key: Key)
    ensures Find([item] + l, key) == if item.key == key then Some(item.entry) else Find(l, key)
  {
    assert ([item] + l)[1..] == l;
  }

  lemma {:induction false} WithoutAbsent(l: Recency, key: Key)
    requires Find(l, key).None?
    ensures Without(l, key) == l
  {
    if l == [] {
    } else {
      WithoutAbsent(l[1..], key);
      assert l == [l[0]] + l[1..];
    }
  }

  ghost predicate Alone(l: Recency, i: nat) {
    i < |l| && forall j :: 0 <= j < |l| && j != i ==> l[j].key != l[i].key
  }

  lemma {:induction false} FindAlone(l: Recency, i: nat)
    requires Alone(l, i)
    ensures Find(l, l[i].key) == Some(l[i].entry)
  {
    if i > 0 {
      assert l[1..][i - 1] == l[i];
      FindAlone(l[1..], i - 1);
    }
  }

  lemma {:induction false} WithoutAlone(l: Recency, i: nat)
    requires Alone(l, i)
    ensures Without(l, l[i].key) == l[..i] + l[i + 1..]
  {
    var rest := l[1..];
    if i == 0 {
      FindIsMembership(rest, l[i].key);
      WithoutAbsent(rest, l[i].key);
      assert l[..0] + rest == rest;
    } else {
      assert rest[i - 1] == l[i];
      WithoutAlone(rest, i - 1);
      assert l[..i] == [l[0]] + rest[..i - 1] && l[i + 1..] == rest[i..];
    }
  }

  /** On distinct keys, `Find` and `Without` are indexing and deletion at one index. */
  lemma FindAt(l: Recency, i: nat)
    requires Distinct(l) && i < |l|
    ensures Find(l, l[i].key) == Some(l[i].entry)
    ensures Without(l, l[i].key) == l[..i] + l[i + 1..]
  {
    assert Alone(l, i);
    FindAlone(l, i);
    WithoutAlone(l, i);
  }

  lemma ShapeAt(l: Recency, i: nat)
    requires Distinct(l) && i < |l|
    ensures var rest := l[..i] + l[i + 1..];
            Distinct(rest) && forall item :: item in rest <==> item in l && item.key != l[i].key
  {
    var rest := l[..i] + l[i + 1..];
    forall item | item in l && item.key != l[i].key
      ensures item in rest
    {
      var j :| 0 <= j < |l| && l[j] == item;
      assert rest[if j < i then j else j - 1] == item;
    }
  }

  lemma WithoutShape(l: Recency, key: Key)
    requires Distinct(l)
    ensures Distinct(Without(l, key))
    ensures |Without(l, key)| == if Find(l, key).Some? then |l| - 1 else |l|
    ensures forall item :: item in Without(l, key) <==> item in l && item.key != key
  {
    hide Find, Without, Distinct;
    FindIsMembership(l, key);
    if Find(l, key).Some? {
      var i :| 0 <= i < |l| && l[i].key == key;
      FindAt(l, i);
      ShapeAt(l, i);
    } else {
      WithoutAbsent(l, key);
      AbsentFromAll(l, key);
    }
  }

  lemma FrontDistinct(item: Item, l: Recency)
    requires Distinct(l) && forall other :: other in l ==> other.key != item.key
    ensures Distinct([item] + l)
  {
  }

  lemma EvictKeeps(cap: int, l: Recency)
    requires Distinct(l)
    ensures Distinct(Evict(cap, l)) && forall item :: item in Evict(cap, l) ==> item in l
  {
  }

  lemma AbsentFromAll(l: Recency, key: Key)
    requires Find(l, key).None?
    ensures forall item :: item in l ==> item.key != key
  {
    FindIsMembership(l, key);
    hide Find;
    forall item | item in l
      ensures item.key != key
    {
      var i :| 0 <= i < |l| && l[i] == item;
      assert l[i].key in Keys(l);
    }
  }

  lemma StepKeepsInv(cap: int, l: Recency, op: Op)
    requires Inv(cap, l)
    ensures Inv(cap, Step(cap, l, op))
  {
    hide Find, Without, Distinct;
    if cap > 0 {
      WithoutShape(l, op.key);
      match op
      case Get(key, _) =>
        if Find(l, key).Some? {
          FrontDistinct(Item(key, Find(l, key).value), Without(l, key));
        }
      case Set(key, e) =>
        if Find(l, key).Some? {
          FrontDistinct(Item(key, e), Without(l, key));
        } else {
          AbsentFromAll(l, key);
          EvictKeeps(cap, l);
          FrontDistinct(Item(key, e), Evict(cap, l));
        }
    }
  }

  /** Every run of operations leaves distinct keys and never more than `cap` items. */
  lemma {:induction false} RunInv(cap: int, ops: seq<Op>)
    ensures Inv(cap, Run(cap, ops))
  {
    if ops == [] {
    } else {
      RunInv(cap, ops[..|ops| - 1]);
      StepKeepsInv(cap, Run(cap, ops[..|ops| - 1]), ops[|ops| - 1]);
    }
  }

  // -- the two operations, position by position --

  /** A held item is answered, and moved to the front, up to and including the instant it expires at;
      after that it is dropped.  An entry with no expiry is always answered. */
  lemma LookupHeld(cap: int, l: Recency, i: nat, now: Instant)
    requires Inv(cap, l) && i < |l|
    ensures var e, rest := l[i].entry, l[..i] + l[i + 1..];
            if e.expiresAt == ZERO || now <= e.expiresAt then
              Answer(cap, l, l[i].key, now) == Some(e) && AfterGet(cap, l, l[i].key, now) == [l[i]] + rest
            else
              Answer(cap, l, l[i].key, now) == None && AfterGet(cap, l, l[i].key, now) == rest
  {
    hide Find, Without;
    FindAt(l, i);
  }

  /** A lookup of anything else answers nothing and changes nothing. */
  lemma LookupAbsent(cap: int, l: Recency, key: Key, now: Instant)
    requires forall i :: 0 <= i < |l| ==> l[i].key != key
    ensures Answer(cap, l, key, now) == None && AfterGet(cap, l, key, now) == l
  {
    FindIsMembership(l, key);
  }

  /** A store puts its item in front; the key's old item goes, or else, in a full cache, the last one. */
  lemma StoreExactly(cap: int, l: Recency, key: Key, e: CacheEntry)
    requires Inv(cap, l) && cap > 0
    ensures forall i :: 0 <= i < |l| && l[i].key == key ==> AfterSet(cap, l, key, e) == [Item(key, e)] + (l[..i] + l[i + 1..])
    ensures (forall i :: 0 <= i < |l| ==> l[i].key != key) ==>
              AfterSet(cap, l, key, e) == [Item(key, e)] + (if |l| == cap then l[..cap - 1] else l)
  {
    hide Find, Without;
    FindIsMembership(l, key);
    forall i | 0 <= i < |l| && l[i].key == key
      ensures AfterSet(cap, l, key, e) == [Item(key, e)] + (l[..i] + l[i + 1..])
    {
      FindAt(l, i);
    }
  }

  /** A cache without capacity stays empty. */
  lemma DisabledCache(cap: int, ops: seq<Op>)
    requires cap <= 0
    ensures Run(cap, ops) == []
    ensures forall key, now :: Answer(cap, Run(cap, ops), key, now) == None
  {
    RunInv(cap, ops);
  }
}
