/** The cache as cache.go builds it: a map from keys to elements of a linked list, both updated in
    place.  `Contents` reads the list front to back; every method is tied to the recency sequence
    of module Recency through it. */
module LruCache {
  import opened Instants
  import opened Wire
  import opened Recency
  import opened LinkedList
  import opened Distinctness

  /** The keys of the map are in bijection with the elements of the list. */
  ghost predicate Indexed(items: map<Key, Element>, es: seq<Element>) {
    && (forall i :: 0 <= i < |es| ==> es[i].key in items && items[es[i].key] == es[i])
    && (forall key :: key in items ==> items[key] in es && items[key].key == key)
  }

  /** The items are what the elements carry, in order. */
  ghost predicate Mirrors(l: Recency, es: seq<Element>)
    reads es
  {
    |l| == |es| && forall i :: 0 <= i < |l| ==> l[i] == Item(es[i].key, es[i].entry)
  }

  lemma IndexedDrop(items: map<Key, Element>, es: seq<Element>, k: nat)
    requires Indexed(items, es) && NoRepeats(es) && k < |es|
    ensures Indexed(items - {es[k].key}, Drop(es, k))
  {
    var items', es' := items - {es[k].key}, Drop(es, k);
    Apart(es);
    forall key | key in items'
      ensures items'[key] in es'
    {
      var i :| 0 <= i < |es| && es[i] == items[key];
      assert es'[if i < k then i else i - 1] == items[key];
    }
  }

  lemma IndexedPromote(items: map<Key, Element>, es: seq<Element>, k: nat)
    requires Indexed(items, es) && k < |es|
    ensures Indexed(items, [es[k]] + Drop(es, k))
  {
    var es' := [es[k]] + Drop(es, k);
    forall key | key in items
      ensures items[key] in es'
    {
      var i :| 0 <= i < |es| && es[i] == items[key];
      assert es'[if i < k then i + 1 else if i == k then 0 else i] == items[key];
    }
  }

  lemma IndexedAdd(items: map<Key, Element>, es: seq<Element>, el: Element)
    requires Indexed(items, es) && el.key !in items
    ensures Indexed(items[el.key := el], [el] + es)
  {
    var es' := [el] + es;
    assert es'[0] == el;
    forall key | key in items
      ensures items[key] in es'
    {
      var i :| 0 <= i < |es| && es[i] == items[key];
      assert es'[i + 1] == items[key];
    }
  }

  lemma MirrorsDrop(l: Recency, es: seq<Element>, k: nat)
    requires Mirrors(l, es) && k < |es|
    ensures Mirrors(Drop(l, k), Drop(es, k))
    ensures Mirrors([l[k]] + Drop(l, k), [es[k]] + Drop(es, k))
  {
  }

  lemma MirrorsCons(l: Recency, es: seq<Element>, el: Element)
    requires Mirrors(l, es)
    ensures Mirrors([Item(el.key, el.entry)] + l, [el] + es)
  {
  }

  lemma HeadApart(es: seq<Element>)
    requires NoRepeats(es) && es != []
    ensures forall i :: 1 <= i < |es| ==> es[i] != es[0]
  {
    Apart(es);
  }

  /** `Mirrors`, taken apart and put together at the first element. */
  lemma MirrorsTail(l: Recency, es: seq<Element>)
    requires Mirrors(l, es)
    ensures |l| == |es| && forall i :: 1 <= i < |es| ==> l[i] == Item(es[i].key, es[i].entry)
  {
  }

  lemma MirrorsHead(l: Recency, es: seq<Element>)
    requires |l| == |es| > 0 && l[0] == Item(es[0].key, es[0].entry)
    requires forall i :: 1 <= i < |es| ==> l[i] == Item(es[i].key, es[i].entry)
    ensures Mirrors(l, es)
  {
  }

  lemma MovedWithin(ring: seq<Element>, k: nat, objects: set<object>)
    requires k + 1 < |ring| && forall i :: 0 <= i < |ring| ==> ring[i] in objects
    ensures var ring' := [ring[0], ring[k + 1]] + Drop(ring, k + 1)[1..];
            forall i :: 0 <= i < |ring'| ==> ring'[i] in objects
  {
  }

  class Cache {
    const cap: int
    var items: map<Key, Element>
    const list: List
    ghost var Contents: Recency
    ghost var Repr: set<object>

    /** The list is well formed and `Contents` is what it carries. */
    ghost predicate Listed()
      reads this, Repr
    {
      && {this, list} <= Repr
      && (forall i :: 0 <= i < |list.ring| ==> list.ring[i] in Repr)
      && list.Valid()
      && Mirrors(Contents, list.Elements())
    }

    ghost predicate Valid()
      reads this, Repr
    {
      Listed() && list.len <= Room(cap) && Indexed(items, list.Elements())
    }

    constructor (cap: int)
      ensures Valid() && fresh(Repr) && this.cap == cap && Contents == []
    {
      this.cap := cap;
      items := map[];
      Contents := [];
      list := new List();
      new;
      Repr := {this, list, list.root};
    }

    method Get(key: Key, now: Instant) returns (entry: Option<CacheEntry>)
      requires Valid()
      modifies Repr
      ensures Valid() && fresh(Repr - old(Repr))
      ensures Contents == AfterGet(cap, old(Contents), key, now)
      ensures entry == Answer(cap, old(Contents), key, now)
      ensures forall i :: 0 <= i < |old(Contents)| && old(Contents)[i].key == key ==>
                var e := old(Contents)[i].entry; entry == if e.expiresAt == ZERO || now <= e.expiresAt then Some(e) else None
      ensures (forall i :: 0 <= i < |old(Contents)| ==> old(Contents)[i].key != key) ==> entry == None
    {
      AnswerByPosition(key, now);
      if cap <= 0 {
        return None;
      }
      if key !in items {
        Absent(key);
        return None;
      }
      var el := items[key];
      ghost var k := Position(key);
      if Expired(el.entry, now) {
        Unlink(el, k);
        return None;
      }
      Promote(el, k);
      return Some(el.entry);
    }

    method Set(key: Key, entry: CacheEntry)
      requires Valid()
      modifies Repr
      ensures Valid() && fresh(Repr - old(Repr))
      ensures Contents == AfterSet(cap, old(Contents), key, entry)
    {
      if cap <= 0 {
        return;
      }
      if key in items {
        var el := items[key];
        ghost var k := Position(key);
        Promote(el, k);
        Overwrite(el, entry);
        return;
      }
      Absent(key);
      EvictOldest();
      Insert(key, entry);
    }

    /** Puts a new item in front of the list, then enters its key in the map. */
    method Insert(key: Key, entry: CacheEntry)
      requires Valid() && list.len < cap && key !in items
      modifies Repr
      ensures Valid() && fresh(Repr - old(Repr))
      ensures Contents == [Item(key, entry)] + old(Contents)
    {
      hide Indexed, Mirrors;
      var el := new Element(key, entry);
      IndexedAdd(items, list.Elements(), el);
      Link(el);
      items := items[key := el];
    }

    /** Replaces the entry of the front element. */
    method Overwrite(el: Element, entry: CacheEntry)
      requires Valid() && list.len > 0 && list.Elements()[0] == el
      modifies Repr
      ensures Valid() && Repr == old(Repr)
      ensures Contents == [Item(el.key, entry)] + old(Contents)[1..]
    {
      hide Indexed, Mirrors, NoRepeats;
      ghost var es := list.Elements();
      list.ElementsApart();
      HeadApart(es);
      MirrorsTail(Contents, es);
      el.entry := entry;
      Contents := [Item(el.key, entry)] + Contents[1..];
      MirrorsHead(Contents, es);
    }

    /** Makes room for a new key, when there is none. */
    method EvictOldest()
      requires Valid() && cap > 0
      modifies Repr
      ensures Valid() && Repr == old(Repr)
      ensures list.len < cap && items.Keys <= old(items.Keys)
      ensures Contents == Evict(cap, old(Contents))
    {
      if list.len >= cap {
        var oldest := list.Back();
        if oldest != null {
          Unlink(oldest, list.len - 1);
        }
      }
    }

    /** Takes the element at index `k` out of the list, then its key out of the map. */
    method Unlink(el: Element, ghost k: nat)
      requires Valid() && k < list.len && list.Elements()[k] == el
      modifies Repr
      ensures Valid() && Repr == old(Repr)
      ensures items == old(items) - {el.key} && list.len == old(list.len) - 1
      ensures Contents == Drop(old(Contents), k)
    {
      list.ElementsApart();
      IndexedDrop(items, list.Elements(), k);
      Detach(el, k);
      items := items - {el.key};
    }

    method Detach(el: Element, ghost k: nat)
      requires Listed() && k < list.len && list.Elements()[k] == el
      modifies Repr
      ensures Listed() && Repr == old(Repr) && items == old(items)
      ensures list.Elements() == Drop(old(list.Elements()), k)
      ensures Contents == Drop(old(Contents), k)
    {
      ghost var es, l := list.Elements(), Contents;
      BehindSentinel(list.ring, el, k);
      Contents := Drop(l, k);
      list.Remove(el, k + 1);
      assert list.Elements() == Drop(es, k);
      assert Mirrors(l, es);
      MirrorsDrop(l, es, k);
    }

    /** Moves the element at index `k` to the front of the list. */
    method Promote(el: Element, ghost k: nat)
      requires Valid() && k < list.len && list.Elements()[k] == el
      modifies Repr
      ensures Valid() && Repr == old(Repr)
      ensures el.entry == old(el.entry) && list.len == old(list.len) && list.Elements()[0] == el
      ensures Contents == [old(Contents)[k]] + Drop(old(Contents), k)
    {
      IndexedPromote(items, list.Elements(), k);
      Raise(el, k);
    }

    method Raise(el: Element, ghost k: nat)
      requires Listed() && k < list.len && list.Elements()[k] == el
      modifies Repr
      ensures Listed() && Repr == old(Repr) && items == old(items)
      ensures el.entry == old(el.entry)
      ensures list.Elements() == [el] + Drop(old(list.Elements()), k)
      ensures Contents == [old(Contents)[k]] + Drop(old(Contents), k)
    {
      hide Drop;
      ghost var es, l := list.Elements(), Contents;
      BehindSentinel(list.ring, el, k);
      MovedWithin(list.ring, k, Repr);
      Contents := [l[k]] + Drop(l, k);
      list.MoveToFront(el, k + 1);
      assert list.Elements() == [el] + Drop(es, k);
      assert Mirrors(l, es);
      MirrorsDrop(l, es, k);
    }

    /** Puts a new element in front of the list. */
    method Link(el: Element)
      requires Listed() && el !in list.ring
      modifies Repr, el`next, el`prev
      ensures Listed() && Repr == old(Repr) + {el} && items == old(items)
      ensures list.Elements() == [el] + old(list.Elements())
      ensures Contents == [Item(el.key, el.entry)] + old(Contents)
    {
      ghost var es, l := list.Elements(), Contents;
      Repr := Repr + {el};
      Contents := [Item(el.key, el.entry)] + l;
      list.PushFront(el);
      assert list.Elements() == [el] + es;
      assert Mirrors(l, es);
      MirrorsCons(l, es, el);
    }

    /** Where the list holds a key of the map. */
    ghost function Position(key: Key): (k: nat)
      reads this, Repr
      requires Valid() && key in items
      ensures k < list.len && list.Elements()[k] == items[key] && Contents[k].key == key
      ensures Find(Contents, key) == Some(items[key].entry)
      ensures Without(Contents, key) == Drop(Contents, k)
    {
      KeysApart();
      var es := list.Elements();
      var k :| 0 <= k < |es| && es[k] == items[key];
      FindAt(Contents, k);
      k
    }

    lemma AnswerByPosition(key: Key, now: Instant)
      requires Valid()
      ensures forall i :: 0 <= i < |Contents| && Contents[i].key == key ==>
                var e := Contents[i].entry;
                Answer(cap, Contents, key, now) == if e.expiresAt == ZERO || now <= e.expiresAt then Some(e) else None
      ensures (forall i :: 0 <= i < |Contents| ==> Contents[i].key != key) ==> Answer(cap, Contents, key, now) == None
    {
      hide Answer, Distinct, Indexed;
      KeysApart();
      forall i | 0 <= i < |Contents| && Contents[i].key == key
        ensures var e := Contents[i].entry;
                Answer(cap, Contents, key, now) == if e.expiresAt == ZERO || now <= e.expiresAt then Some(e) else None
      {
        LookupHeld(cap, Contents, i, now);
      }
      if forall i :: 0 <= i < |Contents| ==> Contents[i].key != key {
        LookupAbsent(cap, Contents, key, now);
      }
    }

    lemma KeysApart()
      requires Valid()
      ensures Distinct(Contents)
    {
      list.ElementsApart();
      Apart(list.Elements());
    }

    lemma Absent(key: Key)
      requires Valid() && key !in items
      ensures Find(Contents, key).None?
    {
      FindIsMembership(Contents, key);
    }
  }
}
