/** What a hit can be, and when a hit is guaranteed, over every run of the cache. */
module Retention {
  import opened Instants
  import opened Wire
  import opened Recency

  lemma RunSnoc(cap: int, before: seq<Op>, op: Op)
    ensures Run(cap, before + [op]) == Step(cap, Run(cap, before), op)
  {
    assert (before + [op])[..|before|] == before;
  }

  // -- a hit is the last value set --

  /** The entry of the last `Set` of a key in a trace. */
  function LastSet(ops: seq<Op>, key: Key): Option<CacheEntry> {
    if ops == [] then None
    else
      var op := ops[|ops| - 1];
      if op.Set? && op.key == key then Some(op.entry) else LastSet(ops[..|ops| - 1], key)
  }

  lemma {:induction false} LastSetIsASet(ops: seq<Op>, key: Key) returns (j: nat)
    requires LastSet(ops, key).Some?
    ensures j < |ops| && ops[j] == Set(key, LastSet(ops, key).value)
    ensures forall i :: j < i < |ops| ==> !(ops[i].Set? && ops[i].key == key)
  {
    j := |ops| - 1;
    if !(ops[j].Set? && ops[j].key == key) {
      j := LastSetIsASet(ops[..j], key);
    }
  }

  /** Everything the cache holds is what was last set under its key. */
  lemma {:induction false} HeldIsLastSet(cap: int, ops: seq<Op>)
    ensures forall item :: item in Run(cap, ops) ==> LastSet(ops, item.key) == Some(item.entry)
  {
    if ops == [] {
    } else {
      var before := ops[..|ops| - 1];
      HeldIsLastSet(cap, before);
      RunInv(cap, before);
      WithoutShape(Run(cap, before), ops[|ops| - 1].key);
      FindIsMembership(Run(cap, before), ops[|ops| - 1].key);
    }
  }

  lemma HitIsLastSet(cap: int, ops: seq<Op>, i: nat)
    requires i < |ops| && AnswerAt(cap, ops, i).Some?
    ensures ops[i].Get?
    ensures LastSet(ops[..i], ops[i].key) == AnswerAt(cap, ops, i)
    ensures var e := AnswerAt(cap, ops, i).value; e.expiresAt == ZERO || ops[i].now <= e.expiresAt
  {
    HeldIsLastSet(cap, ops[..i]);
    FindIsMembership(Run(cap, ops[..i]), ops[i].key);
  }

  // -- recency: the keys in front of a key --

  function Ahead(l: Recency, key: Key): set<Key> {
    if l == [] || l[0].key == key then {} else {l[0].key} + Ahead(l[1..], key)
  }

  function Position(l: Recency, key: Key): nat {
    if l == [] || l[0].key == key then 0 else 1 + Position(l[1..], key)
  }

  lemma {:induction false} PositionAt(l: Recency, key: Key)
    requires Find(l, key).Some?
    ensures Position(l, key) < |l| && l[Position(l, key)].key == key
  {
    if l[0].key == key {
    } else {
      PositionAt(l[1..], key);
    }
  }

  lemma DistinctTail(l: Recency)
    requires Distinct(l) && l != []
    ensures Distinct(l[1..]) && l[0].key !in Keys(l[1..]) && Keys(l) == {l[0].key} + Keys(l[1..])
  {
    assert forall i :: 0 <= i < |l[1..]| ==> l[1..][i] == l[i + 1];
  }

  /** The keys in front of a held key are as many as its index. */
  lemma {:induction false} AheadWithin(l: Recency, key: Key)
    requires Distinct(l)
    ensures Ahead(l, key) <= Keys(l) - {key}
    ensures |Ahead(l, key)| == Position(l, key)
  {
    if l == [] || l[0].key == key {
    } else {
      DistinctTail(l);
      AheadWithin(l[1..], key);
    }
  }

  lemma {:induction false} OthersGone(l: Recency, x: Key, key: Key)
    requires x != key
    ensures Find(Without(l, x), key) == Find(l, key)
    ensures Ahead(Without(l, x), key) == Ahead(l, key) - {x}
  {
    if l == [] {
    } else {
      OthersGone(l[1..], x, key);
      if l[0].key != x {
        assert Without(l, x)[1..] == Without(l[1..], x);
      }
    }
  }

  lemma {:induction false} LastGone(l: Recency, key: Key)
    requires l != [] && l[|l| - 1].key != key
    ensures Find(l[..|l| - 1], key) == Find(l, key)
    ensures Find(l, key).Some? ==> Ahead(l[..|l| - 1], key) == Ahead(l, key)
  {
    if |l| == 1 {
    } else {
      LastGone(l[1..], key);
      assert l[..|l| - 1][1..] == l[1..][..|l[1..]| - 1];
    }
  }

  /** A lookup of another key: a hit puts that key in front, an expired item is taken out. */
  lemma GetOther(cap: int, l: Recency, x: Key, now: Instant, key: Key)
    requires 0 < cap && x != key
    ensures var l' := AfterGet(cap, l, x, now);
            && Find(l', key) == Find(l, key)
            && (Answer(cap, l, x, now).Some? ==> Ahead(l', key) == Ahead(l, key) + {x})
            && (Find(l, x).None? ==> Ahead(l', key) == Ahead(l, key))
            && (Answer(cap, l, x, now).None? ==> Ahead(l', key) <= Ahead(l, key))
  {
    OthersGone(l, x, key);
    if Answer(cap, l, x, now).Some? {
      var l' := AfterGet(cap, l, x, now);
      assert l'[1..] == Without(l, x);
    }
  }

  predicate PushesOut(cap: int, l: Recency, x: Key, key: Key) {
    Find(l, x).None? && |l| == cap && cap > 0 && l[cap - 1].key == key
  }

  /** A `Set` of another key puts it in front; `key` stays unless it was last in a full list. */
  lemma SetOther(cap: int, l: Recency, x: Key, e: CacheEntry, key: Key)
    requires Inv(cap, l) && 0 < cap && x != key && Find(l, key).Some?
    ensures var l' := AfterSet(cap, l, x, e);
            if PushesOut(cap, l, x, key) then Find(l', key).None?
            else Find(l', key) == Find(l, key) && Ahead(l', key) == Ahead(l, key) + {x}
  {
    var l' := AfterSet(cap, l, x, e);
    if Find(l, x).Some? {
      OthersGone(l, x, key);
      assert l'[1..] == Without(l, x);
    } else {
      assert l'[1..] == Evict(cap, l);
      if PushesOut(cap, l, x, key) {
        FindIsMembership(l[..cap - 1], key);
      } else if |l| == cap {
        LastGone(l, key);
      }
    }
  }

  // -- retention --

  lemma SmallerSet(a: set<Key>, b: set<Key>)
    requires a <= b
    ensures |a| <= |b|
  {
    assert b == a + (b - a);
  }

  /** An operation touches its key by setting it or hitting it. */
  predicate Touches(cap: int, l: Recency, op: Op) {
    op.Set? || Answer(cap, l, op.key, op.now).Some?
  }

  /** The touched keys after one more operation. */
  function TouchedBy(cap: int, l: Recency, op: Op, key: Key, touched: set<Key>): set<Key> {
    if op.key != key && Touches(cap, l, op) then touched + {op.key} else touched
  }

  /** The keys other than `key` that a run from `l` touches. */
  function Touched(cap: int, l: Recency, ops: seq<Op>, key: Key): set<Key>
    decreases |ops|
  {
    if ops == [] then {}
    else TouchedBy(cap, l, ops[0], key, Touched(cap, Step(cap, l, ops[0]), ops[1..], key))
  }

  /** A run continued from a list; `Run` is the run from the empty one. */
  function RunFrom(cap: int, l: Recency, ops: seq<Op>): Recency
    decreases |ops|
  {
    if ops == [] then l else RunFrom(cap, Step(cap, l, ops[0]), ops[1..])
  }

  lemma {:induction false} RunSplits(cap: int, before: seq<Op>, after: seq<Op>)
    ensures Run(cap, before + after) == RunFrom(cap, Run(cap, before), after)
    decreases |after|
  {
    if after == [] {
      assert before + after == before;
    } else {
      var mid, rest := before + [after[0]], after[1..];
      calc {
        Run(cap, before + after);
        { assert before + after == mid + rest; }
        Run(cap, mid + rest);
        { RunSplits(cap, mid, rest); }
        RunFrom(cap, Run(cap, mid), rest);
        { RunSnoc(cap, before, after[0]); }
        RunFrom(cap, Step(cap, Run(cap, before), after[0]), rest);
        RunFrom(cap, Run(cap, before), after);
      }
    }
  }

  ghost predicate Leaves(op: Op, key: Key, e: CacheEntry) {
    op.key == key ==> op.Get? && !Expired(e, op.now)
  }

  lemma StepRetains(cap: int, l: Recency, op: Op, key: Key, e: CacheEntry, touched: set<Key>)
    requires 0 < cap && Inv(cap, l) && Find(l, key) == Some(e) && Ahead(l, key) <= touched
    requires Leaves(op, key, e) && |TouchedBy(cap, l, op, key, touched)| < cap
    ensures Find(Step(cap, l, op), key) == Some(e)
    ensures Ahead(Step(cap, l, op), key) <= TouchedBy(cap, l, op, key, touched)
  {
    if op.key != key {
      match op
      case Get(x, now) => GetOther(cap, l, x, now, key);
      case Set(x, entry) =>
        SetOther(cap, l, x, entry, key);
        AheadWithin(l, key);
        PositionAt(l, key);
        FindIsMembership(l, x);
        SmallerSet(Ahead(l, key) + {x}, touched + {x});
    }
  }

  /** `key` is held, behind exactly the touched keys, as long as those are fewer than `cap`. */
  ghost predicate Exact(cap: int, l: Recency, key: Key, e: CacheEntry, touched: set<Key>) {
    if |touched| < cap then Find(l, key) == Some(e) && Ahead(l, key) == touched else Find(l, key).None?
  }

  lemma StepExact(cap: int, l: Recency, op: Op, key: Key, e: CacheEntry, touched: set<Key>)
    requires 0 < cap && Inv(cap, l) && Exact(cap, l, key, e, touched) && op.key != key
    requires op.Get? && Find(l, op.key).Some? ==> Answer(cap, l, op.key, op.now).Some?
    ensures Exact(cap, Step(cap, l, op), key, e, TouchedBy(cap, l, op, key, touched))
  {
    if Find(l, key).None? {
      SmallerSet(touched, TouchedBy(cap, l, op, key, touched));
      StillGone(cap, l, op, key);
    } else {
      StepHeld(cap, l, op, key, e);
    }
  }

  lemma StepHeld(cap: int, l: Recency, op: Op, key: Key, e: CacheEntry)
    requires 0 < cap && Inv(cap, l) && Find(l, key) == Some(e) && op.key != key
    requires op.Get? && Find(l, op.key).Some? ==> Answer(cap, l, op.key, op.now).Some?
    ensures Exact(cap, Step(cap, l, op), key, e, TouchedBy(cap, l, op, key, Ahead(l, key)))
  {
    AheadWithin(l, key);
    PositionAt(l, key);
    if Find(l, op.key).Some? {
      HitAhead(cap, l, op.key, key);
    }
    match op
    case Get(x, now) => GetOther(cap, l, x, now, key);
    case Set(x, entry) => SetHeld(cap, l, x, entry, key, e);
  }

  lemma SetHeld(cap: int, l: Recency, x: Key, entry: CacheEntry, key: Key, e: CacheEntry)
    requires 0 < cap && Inv(cap, l) && Find(l, key) == Some(e) && x != key
    ensures Exact(cap, AfterSet(cap, l, x, entry), key, e, Ahead(l, key) + {x})
  {
    SetOther(cap, l, x, entry, key);
    AheadWithin(l, key);
    PositionAt(l, key);
    var n := |Ahead(l, key)|;
    if Find(l, x).Some? {
      HitAhead(cap, l, x, key);
    } else {
      FindIsMembership(l, x);
      assert x !in Ahead(l, key);
      assert |Ahead(l, key) + {x}| == n + 1;
      assert PushesOut(cap, l, x, key) <==> n == cap - 1;
    }
  }

  lemma StillGone(cap: int, l: Recency, op: Op, key: Key)
    requires Find(l, key).None? && op.key != key
    ensures Find(Step(cap, l, op), key).None?
  {
    OthersGone(l, op.key, key);
    if op.Set? && Evict(cap, l) != l {
      FindIsMembership(l, key);
      FindIsMembership(Evict(cap, l), key);
    }
  }

  /** A held key cannot be the one that fills up the space in front of another held key. */
  lemma HitAhead(cap: int, l: Recency, x: Key, key: Key)
    requires Inv(cap, l) && 0 < cap && x != key && Find(l, key).Some? && Find(l, x).Some?
    ensures |Ahead(l, key) + {x}| < cap
  {
    AheadWithin(l, key);
    FindIsMembership(l, x);
    FindIsMembership(l, key);
    KeysCount(l);
    SmallerSet(Ahead(l, key) + {x}, Keys(l) - {key});
    assert |Keys(l) - {key}| == |l| - 1;
  }

  /** As long as fewer than `cap` other keys are touched, `key` keeps its entry. */
  lemma {:induction false} Retained(cap: int, l: Recency, ops: seq<Op>, key: Key, e: CacheEntry, touched: set<Key>)
    requires 0 < cap && Inv(cap, l) && Find(l, key) == Some(e) && Ahead(l, key) <= touched
    requires forall op :: op in ops ==> Leaves(op, key, e)
    requires |touched + Touched(cap, l, ops, key)| < cap
    ensures Find(RunFrom(cap, l, ops), key) == Some(e)
    decreases |ops|
  {
    if ops == [] {
    } else {
      var op, rest := ops[0], ops[1..];
      var l', touched' := Step(cap, l, op), TouchedBy(cap, l, op, key, touched);
      assert touched' + Touched(cap, l', rest, key) == touched + Touched(cap, l, ops, key);
      SmallerSet(touched', touched + Touched(cap, l, ops, key));
      StepRetains(cap, l, op, key, e, touched);
      StepKeepsInv(cap, l, op);
      Retained(cap, l', rest, key, e, touched');
    }
  }

  /** No lookup of the run finds an expired item. */
  ghost predicate NoneExpired(cap: int, l: Recency, ops: seq<Op>)
    decreases |ops|
  {
    ops == [] ||
    (&& (ops[0].Get? && Find(l, ops[0].key).Some? ==> Answer(cap, l, ops[0].key, ops[0].now).Some?)
     && NoneExpired(cap, Step(cap, l, ops[0]), ops[1..]))
  }

  lemma {:induction false} HeldExactly(cap: int, l: Recency, ops: seq<Op>, key: Key, e: CacheEntry, touched: set<Key>)
    requires 0 < cap && Inv(cap, l) && Exact(cap, l, key, e, touched)
    requires NoneExpired(cap, l, ops)
    requires forall op :: op in ops ==> op.key != key
    ensures Exact(cap, RunFrom(cap, l, ops), key, e, touched + Touched(cap, l, ops, key))
    decreases |ops|
  {
    if ops == [] {
      assert touched + {} == touched;
    } else {
      var op, rest := ops[0], ops[1..];
      var l', touched' := Step(cap, l, op), TouchedBy(cap, l, op, key, touched);
      assert touched' + Touched(cap, l', rest, key) == touched + Touched(cap, l, ops, key);
      StepExact(cap, l, op, key, e, touched);
      StepKeepsInv(cap, l, op);
      HeldExactly(cap, l', rest, key, e, touched');
    }
  }

  /** What `touch` leaves when it sets or hits its key. */
  lemma TouchLeads(cap: int, l: Recency, touch: Op)
    requires 0 < cap && Inv(cap, l) && Touches(cap, l, touch)
    ensures var l' := Step(cap, l, touch);
            Inv(cap, l') && Find(l', touch.key).Some? && Ahead(l', touch.key) == {}
  {
    StepKeepsInv(cap, l, touch);
  }

  lemma {:induction false} LastSetUnchanged(before: seq<Op>, after: seq<Op>, key: Key)
    requires forall op :: op in after ==> !(op.Set? && op.key == key)
    ensures LastSet(before + after, key) == LastSet(before, key)
    decreases |after|
  {
    if after == [] {
      assert before + after == before;
    } else {
      var n := |after| - 1;
      assert (before + after)[..|before| + n] == before + after[..n];
      LastSetUnchanged(before, after[..n], key);
    }
  }

  lemma HeldAfterTouch(cap: int, before: seq<Op>, touch: Op)
    requires 0 < cap && Touches(cap, Run(cap, before), touch)
    ensures var l := Run(cap, before + [touch]);
            && Inv(cap, l)
            && Ahead(l, touch.key) == {}
            && Find(l, touch.key).Some?
            && Find(l, touch.key) == LastSet(before + [touch], touch.key)
  {
    RunInv(cap, before);
    RunSnoc(cap, before, touch);
    TouchLeads(cap, Run(cap, before), touch);
    HeldIsLastSet(cap, before + [touch]);
    FindIsMembership(Run(cap, before + [touch]), touch.key);
  }

  /** Retention.  `touch` sets or hits its key, nothing sets that key afterwards, and no later
      lookup is past `now`.  If fewer than `cap` other keys are touched meanwhile and the entry is
      not expired at `now`, the lookup at `now` hits. */
  lemma RetentionGuarantee(cap: int, before: seq<Op>, touch: Op, after: seq<Op>, now: Instant)
    requires 0 < cap && Touches(cap, Run(cap, before), touch)
    requires forall op :: op in after ==> !(op.Set? && op.key == touch.key)
    requires forall op :: op in after && op.Get? ==> op.now <= now
    requires var e := LastSet(before + [touch], touch.key);
             e.Some? ==> e.value.expiresAt == ZERO || now <= e.value.expiresAt
    requires |Touched(cap, Run(cap, before + [touch]), after, touch.key)| < cap
    ensures LastSet(before + [touch] + after, touch.key).Some?
    ensures Answer(cap, Run(cap, before + [touch] + after), touch.key, now) == LastSet(before + [touch] + after, touch.key)
  {
    var key, ops := touch.key, before + [touch];
    var l := Run(cap, ops);
    HeldAfterTouch(cap, before, touch);
    LastSetUnchanged(ops, after, key);
    RunSplits(cap, ops, after);
    assert {} + Touched(cap, l, after, key) == Touched(cap, l, after, key);
    Retained(cap, l, after, key, Find(l, key).value, {});
  }

  /** The bound is exact: if nothing names the key afterwards and nothing expires meanwhile, the
      lookup hits if and only if fewer than `cap` other keys were touched. */
  lemma RetentionExact(cap: int, before: seq<Op>, touch: Op, after: seq<Op>, now: Instant)
    requires 0 < cap && Touches(cap, Run(cap, before), touch)
    requires forall op :: op in after ==> op.key != touch.key
    requires NoneExpired(cap, Run(cap, before + [touch]), after)
    requires var e := LastSet(before + [touch], touch.key);
             e.Some? ==> e.value.expiresAt == ZERO || now <= e.value.expiresAt
    ensures Answer(cap, Run(cap, before + [touch] + after), touch.key, now).Some?
       <==> |Touched(cap, Run(cap, before + [touch]), after, touch.key)| < cap
  {
    var key, ops := touch.key, before + [touch];
    var l := Run(cap, ops);
    HeldAfterTouch(cap, before, touch);
    RunSplits(cap, ops, after);
    assert {} + Touched(cap, l, after, key) == Touched(cap, l, after, key);
    HeldExactly(cap, l, after, key, Find(l, key).value, {});
  }

  lemma {:induction false} KeysCount(l: Recency)
    requires Distinct(l)
    ensures |Keys(l)| == |l|
  {
    if l == [] {
    } else {
      DistinctTail(l);
      KeysCount(l[1..]);
    }
  }
}
