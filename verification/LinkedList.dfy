/** The doubly linked ring behind the cache: container/list as cache.go uses it, with one sentinel
    element that is both before the front and after the back. */
module LinkedList {
  import opened Wire
  import opened Recency
  import opened Distinctness

  /** A list element together with the item it carries. */
  class Element {
    var prev: Element?
    var next: Element?
    const key: Key
    var entry: CacheEntry

    constructor (key: Key, entry: CacheEntry)
      ensures this.key == key && this.entry == entry
      ensures prev == null && next == null
    {
      this.key, this.entry := key, entry;
      prev, next := null, null;
    }
  }

  ghost function Drop<T>(s: seq<T>, k: nat): seq<T>
    requires k < |s|
  {
    s[..k] + s[k + 1..]
  }

  /** How the ring operations look without the sentinel. */
  lemma BehindSentinel<T>(ring: seq<T>, e: T, k: nat)
    requires k + 1 < |ring|
    ensures Drop(ring, k + 1)[1..] == Drop(ring[1..], k)
    ensures ([ring[0], e] + Drop(ring, k + 1)[1..])[1..] == [e] + Drop(ring[1..], k)
  {
  }

  lemma StillApart(ring: seq<Element>, k: nat)
    requires NoRepeats(ring) && 1 <= k < |ring|
    ensures NoRepeats(Drop(ring, k))
    ensures ring[k] !in Drop(ring, k)
  {
    Apart(ring);
  }

  class List {
    const root: Element
    var len: nat
    ghost var ring: seq<Element>  // the sentinel, then the elements front to back

    /** The links run round the ring, both ways. */
    ghost predicate Linked()
      reads this, ring
    {
      && |ring| > 0
      && ring[0] == root
      && NoRepeats(ring)
      && (forall i {:trigger ring[i].next} :: 0 <= i < |ring| - 1 ==> ring[i].next == ring[i + 1])
      && (forall i {:trigger ring[i].prev} :: 1 <= i < |ring| ==> ring[i].prev == ring[i - 1])
      && ring[|ring| - 1].next == root
      && root.prev == ring[|ring| - 1]
    }

    ghost predicate Valid()
      reads this, ring
    {
      Linked() && len == |ring| - 1
    }

    ghost function Nodes(): set<Element>
      reads this
    {
      set e | e in ring
    }

    /** The elements, front to back. */
    ghost function Elements(): seq<Element>
      reads this, ring
      requires |ring| > 0
    {
      ring[1..]
    }

    constructor ()
      ensures Valid() && ring == [root] && fresh(root)
    {
      var nothing := CacheEntry(0, map[], Other(""), 0);
      var sentinel := new Element("", nothing);
      root := sentinel;
      len := 0;
      ring := [sentinel];
      new;
      root.next, root.prev := root, root;
    }

    method Back() returns (e: Element?)
      requires Valid()
      ensures if len == 0 then e == null else e == Elements()[len - 1]
    {
      if len == 0 {
        return null;
      }
      e := root.prev;
    }

    method PushFront(e: Element)
      requires Valid() && e !in ring
      modifies this`len, this`ring, Nodes()`next, Nodes()`prev, e`next, e`prev
      ensures Valid() && ring == [root, e] + old(ring)[1..]
    {
      LinkFirst(e);
      len := len + 1;
    }

    /** Takes out the element at position `k` of the ring. */
    method Remove(e: Element, ghost k: nat)
      requires Valid() && 1 <= k < |ring| && ring[k] == e
      modifies this`len, this`ring, Nodes()`next, Nodes()`prev
      ensures Valid() && ring == Drop(old(ring), k)
    {
      Unlink(e, k);
      e.next := null;
      e.prev := null;
      len := len - 1;
    }

    /** Moves the element at position `k` of the ring to the front, unless it is there already. */
    method MoveToFront(e: Element, ghost k: nat)
      requires Valid() && 1 <= k < |ring| && ring[k] == e
      modifies this`ring, Nodes()`next, Nodes()`prev
      ensures Valid() && ring == [root, e] + Drop(old(ring), k)[1..]
    {
      if root.next == e {
        Apart(ring);
        assert k == 1;
        assert ring == [root, e] + Drop(ring, k)[1..];
        return;
      }
      Unlink(e, k);
      LinkFirst(e);
    }

    method Unlink(e: Element, ghost k: nat)
      requires Linked() && 1 <= k < |ring| && ring[k] == e
      modifies this`ring, Nodes()`next, Nodes()`prev
      ensures Linked() && ring == Drop(old(ring), k) && e !in ring
    {
      Apart(ring);
      StillApart(ring, k);
      e.prev.next := e.next;
      e.next.prev := e.prev;
      ring := Drop(ring, k);
    }

    method LinkFirst(e: Element)
      requires Linked() && e !in ring
      modifies this`ring, Nodes()`next, Nodes()`prev, e`next, e`prev
      ensures Linked() && ring == [root, e] + old(ring)[1..]
    {
      Apart(ring);
      e.prev := root;
      e.next := root.next;
      e.prev.next := e;
      e.next.prev := e;
      ring := [root, e] + ring[1..];
    }

    lemma ElementsApart()
      requires Valid()
      ensures NoRepeats(Elements())
    {
      Apart(ring);
    }
  }
}
