/** Capacity inclusion: over one trace, a larger cache always holds what a smaller one holds.

    A missed `Get` inserts nothing here, so the smaller list need not be a prefix of the larger;
    it is a subsequence of it, and never more than the difference in capacity shorter. */
module Inclusion {
  import opened Instants
  import opened Wire
  import opened Subsequences
  import opened Recency

  ghost predicate Included(k: int, m: int, lk: Recency, lm: Recency) {
    && Inv(k, lk)
    && Inv(m, lm)
    && Subsequence(lk, lm)
    && |lm| - |lk| <= Room(m) - Room(k)
  }

  lemma {:induction false} WithoutBoth(a: Recency, b: Recency, key: Key)
    requires Subsequence(a, b)
    ensures Subsequence(Without(a, key), Without(b, key))
    decreases |b|
  {
    if a == [] {
    } else {
      if a[0] == b[0] && Subsequence(a[1..], b[1..]) {
        WithoutBoth(a[1..], b[1..], key);
        if a[0].key != key {
          SubsequenceCons(a[0], Without(a[1..], key), Without(b[1..], key));
        }
      } else {
        WithoutBoth(a, b[1..], key);
        SubsequenceCons(b[0], Without(a, key), Without(b[1..], key));
      }
    }
  }

  /** An item of the smaller list is the same item, entry included, in the larger. */
  lemma FindInLarger(a: Recency, b: Recency, key: Key)
    requires Subsequence(a, b) && Distinct(b) && Find(a, key).Some?
    ensures Find(b, key) == Find(a, key)
  {
    FindIsMembership(a, key);
    SubsequenceShorter(a, b);
    var i :| 0 <= i < |b| && b[i] == Item(key, Find(a, key).value);
    FindAt(b, i);
  }

  lemma StepKeepsIncluded(k: int, m: int, lk: Recency, lm: Recency, op: Op)
    requires k <= m && Included(k, m, lk, lm)
    ensures Included(k, m, Step(k, lk, op), Step(m, lm, op))
  {
    StepKeepsInv(k, lk, op);
    StepKeepsInv(m, lm, op);
    if 0 < k {
      match op
      case Get(key, now) => GetKeepsIncluded(k, m, lk, lm, key, now);
      case Set(key, e) => SetKeepsIncluded(k, m, lk, lm, key, e);
    }
  }

  lemma GetKeepsIncluded(k: int, m: int, lk: Recency, lm: Recency, key: Key, now: Instant)
    requires 0 < k <= m && Included(k, m, lk, lm)
    ensures Subsequence(AfterGet(k, lk, key, now), AfterGet(m, lm, key, now))
    ensures |AfterGet(m, lm, key, now)| - |AfterGet(k, lk, key, now)| <= m - k
  {
    hide Find, Without, Distinct, Subsequence;
    WithoutShape(lk, key);
    WithoutShape(lm, key);
    WithoutBoth(lk, lm, key);
    if Find(lk, key).Some? {
      FindInLarger(lk, lm, key);
    } else {
      WithoutAbsent(lk, key);
    }
    if Find(lm, key).Some? {
      SubsequenceCons(Item(key, Find(lm, key).value), Without(lk, key), Without(lm, key));
    }
  }

  lemma SetKeepsIncluded(k: int, m: int, lk: Recency, lm: Recency, key: Key, e: CacheEntry)
    requires 0 < k <= m && Included(k, m, lk, lm)
    ensures Subsequence(AfterSet(k, lk, key, e), AfterSet(m, lm, key, e))
    ensures |AfterSet(m, lm, key, e)| - |AfterSet(k, lk, key, e)| <= m - k
  {
    WithoutShape(lk, key);
    WithoutShape(lm, key);
    SubsequenceShorter(lk, lm);
    var tk, tm;
    if Find(lk, key).Some? {
      FindInLarger(lk, lm, key);
      WithoutBoth(lk, lm, key);
      tk, tm := Without(lk, key), Without(lm, key);
    } else {
      if lk != [] {
        SubsequenceDropLast(lk, lm);
      }
      tk := Evict(k, lk);
      if Find(lm, key).Some? {
        WithoutAbsent(lk, key);
        WithoutBoth(lk, lm, key);
        if lk != [] {
          SubsequenceDropLast(lk, Without(lm, key));
        }
        tm := Without(lm, key);
      } else {
        tm := Evict(m, lm);
      }
    }
    SubsequenceCons(Item(key, e), tk, tm);
  }

  /** Inclusion over every run. */
  lemma {:induction false} CapacityInclusion(k: int, m: int, ops: seq<Op>)
    requires k <= m
    ensures Included(k, m, Run(k, ops), Run(m, ops))
  {
    if ops == [] {
    } else {
      var before := ops[..|ops| - 1];
      CapacityInclusion(k, m, before);
      StepKeepsIncluded(k, m, Run(k, before), Run(m, before), ops[|ops| - 1]);
    }
  }

  /** Raising the capacity keeps every hit, with the same entry. */
  lemma LargerCacheKeepsHits(k: int, m: int, ops: seq<Op>, i: nat)
    requires k <= m && i < |ops|
    requires AnswerAt(k, ops, i).Some?
    ensures AnswerAt(m, ops, i) == AnswerAt(k, ops, i)
  {
    CapacityInclusion(k, m, ops[..i]);
    FindInLarger(Run(k, ops[..i]), Run(m, ops[..i]), ops[i].key);
  }

  /** Plain prefix inclusion is false: after a `Get` that only the larger cache answers, the
      larger list leads with an item the smaller has lost. */
  lemma PrefixInclusionFails(e: CacheEntry)
    requires e.expiresAt == ZERO
    ensures var ops := [Set("a", e), Set("b", e), Get("a", 0)];
            && Run(1, ops) == [Item("b", e)]
            && Run(2, ops) == [Item("a", e), Item("b", e)]
            && !(Run(1, ops) <= Run(2, ops))
  {
    var a, b, g := Set("a", e), Set("b", e), Get("a", 0);
    assert "a"[0] != "b"[0];
    assert [a][..0] == [] && [a, b][..1] == [a] && [a, b, g][..2] == [a, b];
    var ia, ib := Item("a", e), Item("b", e);
    assert Run(1, [a]) == [ia] && Run(2, [a]) == [ia];
    assert [ia][1..] == [] && [ia][..0] == [] && [ib][1..] == [] && [ib, ia][1..] == [ia];
    assert Find([ia], "b") == None;
    assert Run(1, [a, b]) == Step(1, [ia], b) == [ib] + Evict(1, [ia]);
    assert Run(2, [a, b]) == Step(2, [ia], b) == [ib, ia];
    assert Find([ib], "a") == None;
    assert Run(1, [a, b, g]) == Step(1, [ib], g) == [ib];
    assert Without([ia], "a") == [];
    assert Find([ib, ia], "a") == Some(e);
    assert Run(2, [a, b, g]) == Step(2, [ib, ia], g) == [ia] + Without([ib, ia], "a");
    assert [ib] + [] == [ib];
  }
}
