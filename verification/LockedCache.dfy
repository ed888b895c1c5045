/** The cache shared by many requests at once, one micro-step at a time.

    Each process runs one `Get` or `Set` under the mutex; between taking and releasing it, the list
    change and the map change are separate steps, so other processes can be scheduled in between.
    Elements are numbered, and the map holds numbers. */
module LockedCache {
  import opened Wire
  import opened Recency
  import opened Retention
  import opened Distinctness

  datatype Shared = Shared(items: map<Key, nat>, order: seq<nat>, store: map<nat, Item>, next: nat)

  datatype Pc =
    | Waiting                                // before taking the mutex
    | Locked                                 // has it, and has changed nothing
    | Unlisted(el: nat)                      // Get: expired element out of the list, still in the map
    | Promoted(el: nat)                      // Set: element in front, old entry still in it
    | Evicted(el: nat)                       // Set: oldest element out of the list, still in the map
    | Roomy                                  // Set: there is room for the new key
    | Pushed(el: nat)                        // Set: new element in front, not yet in the map
    | Ready(answer: Option<CacheEntry>)      // about to release the mutex
    | Finished(answer: Option<CacheEntry>)

  /** `log` lists the processes in the order in which they took the mutex. */
  datatype State = State(shared: Shared, pcs: seq<Pc>, holder: Option<nat>, log: seq<nat>)

  /** What process `p` does to the cache, if anything. */
  type Program = seq<Option<Op>>

  function Initial(ops: Program): State {
    State(Shared(map[], [], map[], 0), seq(|ops|, i => Waiting), None, [])
  }

  function Deleted(order: seq<nat>, el: nat): seq<nat> {
    if order == [] then []
    else if order[0] == el then order[1..]
    else [order[0]] + Deleted(order[1..], el)
  }

  /** The first step under the mutex: look the key up and start changing the list. */
  function Begin(cap: int, sh: Shared, op: Op): (Shared, Pc) {
    match op
    case Get(key, now) =>
      if key !in sh.items || sh.items[key] !in sh.store then (sh, Ready(None))
      else
        var el := sh.items[key];
        var e := sh.store[el].entry;
        if Expired(e, now) then (sh.(order := Deleted(sh.order, el)), Unlisted(el))
        else (sh.(order := [el] + Deleted(sh.order, el)), Ready(Some(e)))
    case Set(key, _) =>
      if key in sh.items then
        var el := sh.items[key];
        (sh.(order := [el] + Deleted(sh.order, el)), Promoted(el))
      else if |sh.order| >= cap && sh.order != [] then
        (sh.(order := sh.order[..|sh.order| - 1]), Evicted(sh.order[|sh.order| - 1]))
      else (sh, Roomy)
  }

  /** The later steps under the mutex. */
  function Continue(sh: Shared, op: Op, pc: Pc): (Shared, Pc) {
    match pc
    case Unlisted(_) => (sh.(items := sh.items - {op.key}), Ready(None))
    case Promoted(el) =>
      if op.Set? then (sh.(store := sh.store[el := Item(op.key, op.entry)]), Ready(None)) else (sh, pc)
    case Evicted(el) =>
      if el in sh.store then (sh.(items := sh.items - {sh.store[el].key}), Roomy) else (sh, pc)
    case Roomy =>
      if op.Set? then
        (Shared(sh.items, [sh.next] + sh.order, sh.store[sh.next := Item(op.key, op.entry)], sh.next + 1), Pushed(sh.next))
      else (sh, pc)
    case Pushed(el) => (sh.(items := sh.items[op.key := el]), Ready(None))
    case _ => (sh, pc)
  }

  /** One step of process `p`; a process waiting for a taken mutex, or finished, does nothing. */
  function Advance(cap: int, ops: Program, s: State, p: nat): State
    requires |s.pcs| == |ops| && p < |ops|
  {
    match s.pcs[p]
    case Waiting =>
      if cap <= 0 || ops[p].None? then s.(pcs := s.pcs[p := Finished(None)])
      else if s.holder.None? then State(s.shared, s.pcs[p := Locked], Some(p), s.log + [p])
      else s
    case Finished(_) => s
    case Ready(a) => State(s.shared, s.pcs[p := Finished(a)], None, s.log)
    case Locked =>
      if ops[p].None? then s
      else
        var (sh, pc) := Begin(cap, s.shared, ops[p].value);
        State(sh, s.pcs[p := pc], s.holder, s.log)
    case _ =>
      if ops[p].None? then s
      else
        var (sh, pc) := Continue(s.shared, ops[p].value, s.pcs[p]);
        State(sh, s.pcs[p := pc], s.holder, s.log)
  }

  /** The state after a schedule: any sequence of process numbers whatever. */
  function After(cap: int, ops: Program, schedule: seq<nat>): (s: State)
    ensures |s.pcs| == |ops|
  {
    if schedule == [] then Initial(ops)
    else
      var s, p := After(cap, ops, schedule[..|schedule| - 1]), schedule[|schedule| - 1];
      if p < |ops| then Advance(cap, ops, s, p) else s
  }

  ghost predicate ValidLog(ops: Program, log: seq<nat>) {
    && (forall i :: 0 <= i < |log| ==> log[i] < |ops| && ops[log[i]].Some?)
    && NoRepeats(log)
  }

  /** The operations of the processes of a log, in its order. */
  ghost function OpsOf(ops: Program, log: seq<nat>): seq<Op>
    requires ValidLog(ops, log)
  {
    seq(|log|, i requires 0 <= i < |log| => ops[log[i]].value)
  }

  // -- what the shared state represents --

  ghost predicate Represents(items: map<Key, nat>, order: seq<nat>, store: map<nat, Item>, l: Recency) {
    Distinct(l) && Mapped(items, order, store, l) && Covered(items, l)
  }

  ghost predicate Mapped(items: map<Key, nat>, order: seq<nat>, store: map<nat, Item>, l: Recency) {
    && |order| == |l|
    && (forall i :: 0 <= i < |order| ==> order[i] in store && store[order[i]] == l[i])
    && (forall i :: 0 <= i < |order| ==> l[i].key in items && items[l[i].key] == order[i])
  }

  ghost predicate Covered(items: map<Key, nat>, l: Recency) {
    forall key :: key in items ==> Find(l, key).Some?
  }

  ghost predicate Consistent(sh: Shared, l: Recency) {
    && Represents(sh.items, sh.order, sh.store, l)
    && (forall id :: id in sh.store ==> id < sh.next)
  }

  /** The shared state in the middle of an operation that started from the list `base`. */
  ghost predicate Midway(cap: int, sh: Shared, op: Op, pc: Pc, base: Recency) {
    && Inv(cap, base)
    && cap > 0
    && (forall id :: id in sh.store ==> id < sh.next)
    && match pc
       case Locked => Represents(sh.items, sh.order, sh.store, base)
       case Unlisted(el) =>
         && op.Get? && Find(base, op.key).Some? && Expired(Find(base, op.key).value, op.now)
         && Represents(sh.items - {op.key}, sh.order, sh.store, Without(base, op.key))
       case Promoted(el) =>
         && op.Set? && Find(base, op.key).Some? && sh.order != [] && sh.order[0] == el
         && Represents(sh.items, sh.order, sh.store, [Item(op.key, Find(base, op.key).value)] + Without(base, op.key))
       case Evicted(el) =>
         && op.Set? && Find(base, op.key).None? && |base| >= cap
         && el in sh.store && sh.store[el].key != op.key && op.key !in sh.items
         && Represents(sh.items - {sh.store[el].key}, sh.order, sh.store, Evict(cap, base))
       case Roomy =>
         && op.Set? && Find(base, op.key).None? && op.key !in sh.items
         && Represents(sh.items, sh.order, sh.store, Evict(cap, base))
       case Pushed(el) =>
         && op.Set? && Find(base, op.key).None? && op.key !in sh.items
         && sh.order != [] && sh.order[0] == el && el in sh.store && sh.store[el] == Item(op.key, op.entry)
         && Represents(sh.items, sh.order[1..], sh.store, Evict(cap, base))
       case Ready(a) =>
         && Represents(sh.items, sh.order, sh.store, Step(cap, base, op))
         && a == (if op.Get? then Answer(cap, base, op.key, op.now) else None)
       case _ => false
  }

  lemma {:induction false} DeletedAt(order: seq<nat>, i: nat)
    requires i < |order| && forall j :: 0 <= j < i ==> order[j] != order[i]
    ensures Deleted(order, order[i]) == order[..i] + order[i + 1..]
  {
    if i > 0 {
      assert order[1..][i - 1] == order[i];
      DeletedAt(order[1..], i - 1);
      assert order[..i] == [order[0]] + order[1..][..i - 1];
      assert order[i + 1..] == order[1..][i..];
    } else {
      assert order[..0] + order[1..] == order[1..];
    }
  }

  /** A key of the map, and the place of its element in the list. */
  lemma Locate(items: map<Key, nat>, order: seq<nat>, store: map<nat, Item>, l: Recency, key: Key) returns (i: nat)
    requires Represents(items, order, store, l) && key in items
    ensures i < |order| && order[i] == items[key] && l[i].key == key
    ensures Find(l, key) == Some(store[items[key]].entry)
    ensures Without(l, key) == l[..i] + l[i + 1..]
    ensures Deleted(order, items[key]) == order[..i] + order[i + 1..]
  {
    FindIsMembership(l, key);
    i :| 0 <= i < |l| && l[i].key == key;
    FindAt(l, i);
    assert forall j :: 0 <= j < i ==> l[j].key != l[i].key && items[l[j].key] == order[j];
    forall j | 0 <= j < i
      ensures order[j] != order[i]
    {
      assert store[order[j]] == l[j];
    }
    DeletedAt(order, i);
  }

  lemma MappedDelete(items: map<Key, nat>, order: seq<nat>, store: map<nat, Item>, l: Recency, i: nat)
    requires Mapped(items, order, store, l) && Alone(l, i)
    ensures Mapped(items - {l[i].key}, order[..i] + order[i + 1..], store, l[..i] + l[i + 1..])
  {
  }

  lemma MappedCons(items: map<Key, nat>, order: seq<nat>, store: map<nat, Item>, l: Recency, el: nat)
    requires Mapped(items, order, store, l) && el in store && store[el].key in items && items[store[el].key] == el
    ensures Mapped(items, [el] + order, store, [store[el]] + l)
  {
  }

  lemma CoveredWithout(items: map<Key, nat>, l: Recency, key: Key)
    requires Covered(items, l)
    ensures Covered(items - {key}, Without(l, key))
  {
    forall k | k in items && k != key
      ensures Find(Without(l, key), k).Some?
    {
      OthersGone(l, key, k);
    }
  }

  lemma CoveredCons(items: map<Key, nat>, l: Recency, item: Item)
    requires Covered(items - {item.key}, l)
    ensures Covered(items, [item] + l)
  {
    forall k | k in items
      ensures Find([item] + l, k).Some?
    {
      FindInFront(item, l, k);
    }
  }

  /** Deleting the element of a key of the map. */
  lemma RepresentsDelete(items: map<Key, nat>, order: seq<nat>, store: map<nat, Item>, l: Recency, key: Key)
    requires Represents(items, order, store, l) && key in items
    ensures items[key] in store && Find(l, key).Some? && store[items[key]] == Item(key, Find(l, key).value)
    ensures Represents(items - {key}, Deleted(order, items[key]), store, Without(l, key))
  {
    var i := Locate(items, order, store, l, key);
    assert Alone(l, i);
    WithoutShape(l, key);
    MappedDelete(items, order, store, l, i);
    CoveredWithout(items, l, key);
  }

  lemma RepresentsPush(items: map<Key, nat>, order: seq<nat>, store: map<nat, Item>, l: Recency, el: nat)
    requires Represents(items, order, store, l) && el in store && store[el].key !in items
    ensures Represents(items[store[el].key := el], [el] + order, store, [store[el]] + l)
  {
    var items' := items[store[el].key := el];
    assert items' - {store[el].key} == items;
    MappedCons(items', order, store, l, el);
    CoveredCons(items', l, store[el]);
  }

  /** Moving the element of a key of the map to the front. */
  lemma RepresentsPromote(items: map<Key, nat>, order: seq<nat>, store: map<nat, Item>, l: Recency, key: Key)
    requires Represents(items, order, store, l) && key in items
    ensures items[key] in store && Find(l, key).Some? && store[items[key]] == Item(key, Find(l, key).value)
    ensures Represents(items, [items[key]] + Deleted(order, items[key]), store, [Item(key, Find(l, key).value)] + Without(l, key))
  {
    RepresentsDelete(items, order, store, l, key);
    RepresentsPush(items - {key}, Deleted(order, items[key]), store, Without(l, key), items[key]);
    assert (items - {key})[key := items[key]] == items;
  }

  lemma RepresentsEvict(items: map<Key, nat>, order: seq<nat>, store: map<nat, Item>, l: Recency)
    requires Represents(items, order, store, l) && l != []
    ensures var n := |order| - 1;
            && order[n] in store
            && store[order[n]].key in items
            && Represents(items - {store[order[n]].key}, order[..n], store, l[..n])
  {
    var n := |l| - 1;
    assert Alone(l, n);
    MappedDelete(items, order, store, l, n);
    assert order[..n] + order[n + 1..] == order[..n] && l[..n] + l[n + 1..] == l[..n];
    CoveredWithout(items, l, l[n].key);
    WithoutAlone(l, n);
  }

  // -- one operation, micro-step by micro-step --

  lemma BeginKeepsMidway(cap: int, sh: Shared, op: Op, base: Recency)
    requires Midway(cap, sh, op, Locked, base)
    ensures var (sh', pc') := Begin(cap, sh, op); Midway(cap, sh', op, pc', base)
  {
    if op.key in sh.items {
      RepresentsDelete(sh.items, sh.order, sh.store, base, op.key);
      RepresentsPromote(sh.items, sh.order, sh.store, base, op.key);
    } else {
      FindIsMembership(base, op.key);
      if op.Set? && |base| >= cap {
        RepresentsEvict(sh.items, sh.order, sh.store, base);
      }
    }
  }

  lemma ContinueKeepsMidway(cap: int, sh: Shared, op: Op, pc: Pc, base: Recency)
    requires Midway(cap, sh, op, pc, base) && !pc.Locked? && !pc.Ready?
    ensures var (sh', pc') := Continue(sh, op, pc); Midway(cap, sh', op, pc', base)
  {
    hide Represents, Step, Evict, Expired;
    StepIs(cap, base, op);
    match pc
    case Promoted(el) => RepresentsRefresh(sh, op, Find(base, op.key).value, Without(base, op.key));
    case Roomy => RepresentsNew(sh, Item(op.key, op.entry), Evict(cap, base));
    case Pushed(el) =>
      RepresentsPush(sh.items, sh.order[1..], sh.store, Evict(cap, base), el);
      assert [el] + sh.order[1..] == sh.order;
    case _ =>
  }

  /** What a step makes of the list, by cases. */
  lemma StepIs(cap: int, base: Recency, op: Op)
    requires cap > 0
    ensures op.Get? && Find(base, op.key).Some? && Expired(Find(base, op.key).value, op.now)
        ==> Step(cap, base, op) == Without(base, op.key) && Answer(cap, base, op.key, op.now) == None
    ensures op.Set? && Find(base, op.key).Some? ==> Step(cap, base, op) == [Item(op.key, op.entry)] + Without(base, op.key)
    ensures op.Set? && Find(base, op.key).None? ==> Step(cap, base, op) == [Item(op.key, op.entry)] + Evict(cap, base)
  {
    hide Find, Without, Expired, Evict;
  }

  /** Replacing the entry of the front element. */
  lemma RepresentsRefresh(sh: Shared, op: Op, was: CacheEntry, rest: Recency)
    requires op.Set? && sh.order != [] && Represents(sh.items, sh.order, sh.store, [Item(op.key, was)] + rest)
    ensures sh.order[0] in sh.store
    ensures Represents(sh.items, sh.order, sh.store[sh.order[0] := Item(op.key, op.entry)], [Item(op.key, op.entry)] + rest)
  {
  }

  /** A new element is in the store before anything points to it. */
  lemma RepresentsNew(sh: Shared, item: Item, l: Recency)
    requires Represents(sh.items, sh.order, sh.store, l) && forall id :: id in sh.store ==> id < sh.next
    ensures Represents(sh.items, sh.order, sh.store[sh.next := item], l)
  {
  }

  // -- all processes together --

  predicate Outside(pc: Pc) {
    pc.Waiting? || pc.Finished?
  }

  /** Process `p` is where its log entry says, and a finished one has the sequential answer. */
  ghost predicate Settled(cap: int, ops: Program, s: State, p: nat)
    requires |s.pcs| == |ops| && p < |ops| && ValidLog(ops, s.log)
  {
    && (p in s.log <==> cap > 0 && ops[p].Some? && !s.pcs[p].Waiting?)
    && (s.pcs[p].Finished? && p !in s.log ==> s.pcs[p].answer == None)
    && (forall i :: 0 <= i < |s.log| && s.log[i] == p && s.pcs[p].Finished? ==>
          s.pcs[p].answer == AnswerAt(cap, OpsOf(ops, s.log), i))
  }

  ghost predicate SystemInv(cap: int, ops: Program, s: State) {
    && |s.pcs| == |ops|
    && ValidLog(ops, s.log)
    && (forall p :: 0 <= p < |ops| ==> Settled(cap, ops, s, p))
    && match s.holder
       case None =>
         && (forall p :: 0 <= p < |ops| ==> Outside(s.pcs[p]))
         && Consistent(s.shared, Run(cap, OpsOf(ops, s.log)))
       case Some(h) =>
         && h < |ops| && !Outside(s.pcs[h])
         && s.log != [] && s.log[|s.log| - 1] == h
         && ValidLog(ops, s.log[..|s.log| - 1])
         && (forall p :: 0 <= p < |ops| && p != h ==> Outside(s.pcs[p]))
         && Midway(cap, s.shared, ops[h].value, s.pcs[h], Run(cap, OpsOf(ops, s.log[..|s.log| - 1])))
  }

  lemma InitialInv(cap: int, ops: Program)
    ensures SystemInv(cap, ops, Initial(ops))
  {
    assert OpsOf(ops, []) == [];
  }

  lemma OpsOfSnoc(ops: Program, log: seq<nat>, p: nat)
    requires ValidLog(ops, log) && p < |ops| && ops[p].Some? && p !in log
    ensures ValidLog(ops, log + [p]) && OpsOf(ops, log + [p]) == OpsOf(ops, log) + [ops[p].value]
  {
    var log' := log + [p];
    forall i, j | 0 <= i < j < |log'|
      ensures Nth(log', i) != Nth(log', j)
    {
      assert i < |log|;
      if j < |log| {
        assert Nth(log, i) != Nth(log, j);
      }
    }
  }

  lemma ValidPrefix(ops: Program, log: seq<nat>)
    requires ValidLog(ops, log) && log != []
    ensures ValidLog(ops, log[..|log| - 1]) && log[|log| - 1] !in log[..|log| - 1]
  {
    var n := |log| - 1;
    forall i, j | 0 <= i < j < n
      ensures Nth(log[..n], i) != Nth(log[..n], j)
    {
      assert Nth(log, i) != Nth(log, j);
    }
    forall i | 0 <= i < n
      ensures log[i] != log[n]
    {
      assert Nth(log, i) != Nth(log, n);
    }
  }

  lemma AnswersStay(cap: int, ops: seq<Op>, op: Op, i: nat)
    requires i < |ops|
    ensures AnswerAt(cap, ops + [op], i) == AnswerAt(cap, ops, i)
  {
    assert (ops + [op])[..i] == ops[..i];
  }

  /** A step of `p` that neither logs nor finishes leaves everyone settled. */
  lemma SettledStay(cap: int, ops: Program, s: State, p: nat, pc: Pc, sh: Shared, q: nat)
    requires |s.pcs| == |ops| && p < |ops| && q < |ops| && ValidLog(ops, s.log)
    requires Settled(cap, ops, s, q) && !Outside(s.pcs[p]) && !Outside(pc)
    ensures Settled(cap, ops, State(sh, s.pcs[p := pc], s.holder, s.log), q)
  {
  }

  /** Taking the mutex. */
  lemma AcquireKeepsInv(cap: int, ops: Program, s: State, p: nat)
    requires SystemInv(cap, ops, s) && p < |ops|
    requires cap > 0 && ops[p].Some? && s.pcs[p].Waiting? && s.holder.None?
    ensures SystemInv(cap, ops, Advance(cap, ops, s, p))
  {
    var s' := Advance(cap, ops, s, p);
    assert Settled(cap, ops, s, p);
    OpsOfSnoc(ops, s.log, p);
    var done := OpsOf(ops, s.log);
    assert s'.log[..|s'.log| - 1] == s.log;
    RunInv(cap, done);
    forall q | 0 <= q < |ops|
      ensures Settled(cap, ops, s', q)
    {
      assert Settled(cap, ops, s, q);
      forall i | 0 <= i < |s'.log| && s'.log[i] == q && s'.pcs[q].Finished?
        ensures s'.pcs[q].answer == AnswerAt(cap, OpsOf(ops, s'.log), i)
      {
        assert i < |s.log| && s.log[i] == q;
        AnswersStay(cap, done, ops[p].value, i);
      }
    }
  }

  /** A step under the mutex. */
  lemma HeldStepKeepsInv(cap: int, ops: Program, s: State, p: nat)
    requires SystemInv(cap, ops, s) && p < |ops|
    requires !Outside(s.pcs[p]) && !s.pcs[p].Ready?
    ensures SystemInv(cap, ops, Advance(cap, ops, s, p))
  {
    var base := Run(cap, OpsOf(ops, s.log[..|s.log| - 1]));
    var op := ops[p].value;
    var (sh, pc) := if s.pcs[p].Locked? then Begin(cap, s.shared, op) else Continue(s.shared, op, s.pcs[p]);
    if s.pcs[p].Locked? {
      BeginKeepsMidway(cap, s.shared, op, base);
    } else {
      ContinueKeepsMidway(cap, s.shared, op, s.pcs[p], base);
    }
    var s' := State(sh, s.pcs[p := pc], s.holder, s.log);
    forall q | 0 <= q < |ops|
      ensures Settled(cap, ops, s', q)
    {
      SettledStay(cap, ops, s, p, pc, sh, q);
    }
  }

  /** At the release the operation has taken effect as a whole: list and answer are the ones of
      the sequential run that ends with it. */
  lemma ReleasePoint(cap: int, ops: Program, s: State, p: nat)
    requires SystemInv(cap, ops, s) && p < |ops| && s.pcs[p].Ready?
    ensures s.holder == Some(p) && s.log != [] && s.log[|s.log| - 1] == p
    ensures Consistent(s.shared, Run(cap, OpsOf(ops, s.log)))
    ensures s.pcs[p].answer == AnswerAt(cap, OpsOf(ops, s.log), |s.log| - 1)
  {
    hide Represents, Step, Answer, Run, Inv, Settled, NoRepeats;
    var n := |s.log| - 1;
    var before := s.log[..n];
    ValidPrefix(ops, s.log);
    assert s.log == before + [p];
    OpsOfSnoc(ops, before, p);
    RunSnoc(cap, OpsOf(ops, before), ops[p].value);
    assert OpsOf(ops, s.log)[..n] == OpsOf(ops, before);
  }

  lemma SettledRelease(cap: int, ops: Program, s: State, p: nat, a: Option<CacheEntry>, q: nat)
    requires |s.pcs| == |ops| && p < |ops| && q < |ops| && ValidLog(ops, s.log)
    requires Settled(cap, ops, s, q) && s.pcs[p].Ready?
    requires s.log != [] && s.log[|s.log| - 1] == p && a == AnswerAt(cap, OpsOf(ops, s.log), |s.log| - 1)
    ensures Settled(cap, ops, State(s.shared, s.pcs[p := Finished(a)], None, s.log), q)
  {
    hide AnswerAt, OpsOf;
    var n := |s.log| - 1;
    forall i | 0 <= i < n
      ensures s.log[i] != p
    {
      assert Nth(s.log, i) != Nth(s.log, n);
    }
  }

  lemma ReleaseKeepsInv(cap: int, ops: Program, s: State, p: nat)
    requires SystemInv(cap, ops, s) && p < |ops| && s.pcs[p].Ready?
    ensures SystemInv(cap, ops, Advance(cap, ops, s, p))
  {
    ReleasePoint(cap, ops, s, p);
    var s' := State(s.shared, s.pcs[p := Finished(s.pcs[p].answer)], None, s.log);
    forall q | 0 <= q < |ops|
      ensures Settled(cap, ops, s', q)
    {
      SettledRelease(cap, ops, s, p, s.pcs[p].answer, q);
    }
  }

  /** A process that takes no lock finishes at once. */
  lemma PassKeepsInv(cap: int, ops: Program, s: State, p: nat)
    requires SystemInv(cap, ops, s) && p < |ops| && s.pcs[p].Waiting? && (cap <= 0 || ops[p].None?)
    ensures SystemInv(cap, ops, Advance(cap, ops, s, p))
  {
    var s' := Advance(cap, ops, s, p);
    assert Settled(cap, ops, s, p);
    forall q | 0 <= q < |ops|
      ensures Settled(cap, ops, s', q)
    {
      assert Settled(cap, ops, s, q);
    }
  }

  lemma AdvanceKeepsInv(cap: int, ops: Program, s: State, p: nat)
    requires SystemInv(cap, ops, s) && p < |ops|
    ensures SystemInv(cap, ops, Advance(cap, ops, s, p))
  {
    match s.pcs[p]
    case Waiting =>
      if cap <= 0 || ops[p].None? {
        PassKeepsInv(cap, ops, s, p);
      } else if s.holder.None? {
        AcquireKeepsInv(cap, ops, s, p);
      }
    case Finished(_) =>
    case Ready(_) => ReleaseKeepsInv(cap, ops, s, p);
    case _ => HeldStepKeepsInv(cap, ops, s, p);
  }

  /** The invariant holds after every schedule. */
  lemma {:induction false} EveryScheduleKeepsInv(cap: int, ops: Program, schedule: seq<nat>)
    ensures SystemInv(cap, ops, After(cap, ops, schedule))
  {
    if schedule == [] {
      InitialInv(cap, ops);
    } else {
      var n := |schedule| - 1;
      EveryScheduleKeepsInv(cap, ops, schedule[..n]);
      if schedule[n] < |ops| {
        AdvanceKeepsInv(cap, ops, After(cap, ops, schedule[..n]), schedule[n]);
      }
    }
  }

  /** Lock atomicity, for the shared state: after any interleaving the log is a duplicate-free
      order of the processes that have taken the mutex, and whenever the mutex is free, map and
      list agree and are the cache after running the logged operations one after the other. */
  lemma FreeMeansSequential(cap: int, ops: Program, schedule: seq<nat>)
    ensures var s := After(cap, ops, schedule);
            && ValidLog(ops, s.log)
            && (s.holder.None? ==> Consistent(s.shared, Run(cap, OpsOf(ops, s.log))))
  {
    EveryScheduleKeepsInv(cap, ops, schedule);
  }

  /** Lock atomicity, for the answers: a finished process has the answer it gets in the sequential
      run of the logged operations, or took no lock and got none. */
  lemma AnswersAreSequential(cap: int, ops: Program, schedule: seq<nat>, p: nat) returns (i: nat)
    requires p < |ops| && After(cap, ops, schedule).pcs[p].Finished?
    ensures var s := After(cap, ops, schedule);
            && ValidLog(ops, s.log)
            && if cap > 0 && ops[p].Some? then
                 i < |s.log| && s.log[i] == p && s.pcs[p].answer == AnswerAt(cap, OpsOf(ops, s.log), i)
               else s.pcs[p].answer == None
  {
    EveryScheduleKeepsInv(cap, ops, schedule);
    var s := After(cap, ops, schedule);
    assert Settled(cap, ops, s, p);
    if cap > 0 && ops[p].Some? {
      i :| 0 <= i < |s.log| && s.log[i] == p;
    } else {
      i := 0;
    }
  }

  // -- progress --

  /** A bound on the steps a process still has to take. */
  function Left(pc: Pc): nat {
    match pc
    case Waiting => 6
    case Locked => 5
    case Evicted(_) => 4
    case Roomy => 3
    case Unlisted(_) => 2
    case Promoted(_) => 2
    case Pushed(_) => 2
    case Ready(_) => 1
    case Finished(_) => 0
  }

  function TotalLeft(pcs: seq<Pc>): nat {
    if pcs == [] then 0 else TotalLeft(pcs[..|pcs| - 1]) + Left(pcs[|pcs| - 1])
  }

  lemma {:induction false} TotalLeftUpdate(pcs: seq<Pc>, p: nat, pc: Pc)
    requires p < |pcs|
    ensures TotalLeft(pcs[p := pc]) == TotalLeft(pcs) + Left(pc) - Left(pcs[p])
  {
    hide Left;
    var n := |pcs| - 1;
    if p == n {
      assert pcs[p := pc][..n] == pcs[..n];
    } else {
      TotalLeftUpdate(pcs[..n], p, pc);
      assert pcs[p := pc][..n] == pcs[..n][p := pc];
    }
  }

  lemma {:induction false} LeftWithinTotal(pcs: seq<Pc>, p: nat)
    requires p < |pcs|
    ensures Left(pcs[p]) <= TotalLeft(pcs)
  {
    hide Left;
    if p == |pcs| - 1 {
    } else {
      LeftWithinTotal(pcs[..|pcs| - 1], p);
    }
  }

  /** A process that still has to wait for the mutex, or has finished. */
  predicate Stuck(cap: int, ops: Program, s: State, p: nat)
    requires p < |ops| == |s.pcs|
  {
    s.pcs[p].Finished? || (s.pcs[p].Waiting? && cap > 0 && ops[p].Some? && s.holder.Some?)
  }

  lemma UnderMutexGoesOn(cap: int, sh: Shared, op: Op, pc: Pc, base: Recency)
    requires Midway(cap, sh, op, pc, base) && !pc.Ready?
    ensures Left((if pc.Locked? then Begin(cap, sh, op) else Continue(sh, op, pc)).1) < Left(pc)
  {
    hide Represents, Step, Answer, Inv, Expired;
  }

  /** A turn brings a process nearer its end, unless it has to wait or has finished. */
  lemma StepGoesOn(cap: int, ops: Program, s: State, p: nat)
    requires SystemInv(cap, ops, s) && p < |ops|
    ensures var s' := Advance(cap, ops, s, p);
            if Stuck(cap, ops, s, p) then s' == s else TotalLeft(s'.pcs) < TotalLeft(s.pcs)
  {
    hide Midway, Begin, Continue, TotalLeft, NoRepeats, Consistent, Settled, Run;
    var s' := Advance(cap, ops, s, p);
    TotalLeftUpdate(s.pcs, p, s'.pcs[p]);
    if !Outside(s.pcs[p]) && !s.pcs[p].Ready? {
      UnderMutexGoesOn(cap, s.shared, ops[p].value, s.pcs[p], Run(cap, OpsOf(ops, s.log[..|s.log| - 1])));
    }
    if !Stuck(cap, ops, s, p) {
      assert s'.pcs == s.pcs[p := s'.pcs[p]];
    }
  }

  /** No deadlock: while a process is unfinished, some process can go on. */
  lemma SomeoneCanMove(cap: int, ops: Program, schedule: seq<nat>, p: nat) returns (q: nat)
    requires p < |ops| && !After(cap, ops, schedule).pcs[p].Finished?
    ensures q < |ops| && !Stuck(cap, ops, After(cap, ops, schedule), q)
  {
    hide Represents, Consistent, Run, NoRepeats;
    EveryScheduleKeepsInv(cap, ops, schedule);
    var s := After(cap, ops, schedule);
    q := if s.holder.Some? then s.holder.value else p;
  }

  /** While a schedule goes through one round, the total goes down, or nothing has happened yet and
      `q`, who can go on, has not had its turn. */
  lemma {:induction false} WithinRound(cap: int, ops: Program, before: seq<nat>, part: seq<nat>, q: nat)
    requires q < |ops| && !Stuck(cap, ops, After(cap, ops, before), q)
    ensures var s, s' := After(cap, ops, before), After(cap, ops, before + part);
            TotalLeft(s'.pcs) < TotalLeft(s.pcs) || (s' == s && q !in part)
  {
    hide SystemInv, Advance, TotalLeft, Stuck;
    if part == [] {
      assert before + part == before;
    } else {
      var n := |part| - 1;
      WithinRound(cap, ops, before, part[..n], q);
      assert (before + part)[..|before| + n] == before + part[..n];
      assert part == part[..n] + [part[n]];
      if part[n] < |ops| {
        EveryScheduleKeepsInv(cap, ops, before + part[..n]);
        StepGoesOn(cap, ops, After(cap, ops, before + part[..n]), part[n]);
      }
    }
  }

  /** Every process has a turn, or several, in whatever order. */
  ghost predicate Round(ops: Program, turns: seq<nat>) {
    forall p: nat :: p < |ops| ==> p in turns
  }

  function Concat(rounds: seq<seq<nat>>): seq<nat> {
    if rounds == [] then [] else Concat(rounds[..|rounds| - 1]) + rounds[|rounds| - 1]
  }

  lemma {:induction false} TotalAtStart(n: nat)
    ensures TotalLeft(seq(n, i => Waiting)) == 6 * n
  {
    if n == 0 {
    } else {
      TotalAtStart(n - 1);
      assert seq(n, i => Waiting)[..n - 1] == seq(n - 1, i => Waiting);
    }
  }

  lemma {:induction false} RoundsBringDown(cap: int, ops: Program, rounds: seq<seq<nat>>)
    requires forall i :: 0 <= i < |rounds| ==> Round(ops, rounds[i])
    ensures var left := TotalLeft(After(cap, ops, Concat(rounds)).pcs);
            left == 0 || left + |rounds| <= 6 * |ops|
  {
    hide Stuck, TotalLeft;
    if rounds == [] {
      TotalAtStart(|ops|);
      assert Initial(ops).pcs == seq(|ops|, i => Waiting);
    } else {
      var n := |rounds| - 1;
      var before := Concat(rounds[..n]);
      RoundsBringDown(cap, ops, rounds[..n]);
      RoundBringsDown(cap, ops, before, rounds[n]);
    }
  }

  lemma RoundBringsDown(cap: int, ops: Program, before: seq<nat>, round: seq<nat>)
    requires Round(ops, round)
    ensures var left, left' := TotalLeft(After(cap, ops, before).pcs), TotalLeft(After(cap, ops, before + round).pcs);
            left' < left || left == left' == 0
  {
    hide Stuck, SystemInv, Advance;
    var s := After(cap, ops, before);
    if p :| 0 <= p < |ops| && !s.pcs[p].Finished? {
      var q := SomeoneCanMove(cap, ops, before, p);
      WithinRound(cap, ops, before, round, q);
    } else {
      AllFinished(s.pcs);
      FinishedStay(cap, ops, before, round);
    }
  }

  lemma {:induction false} AllFinished(pcs: seq<Pc>)
    requires forall p :: 0 <= p < |pcs| ==> pcs[p].Finished?
    ensures TotalLeft(pcs) == 0
  {
    if pcs == [] {
    } else {
      AllFinished(pcs[..|pcs| - 1]);
    }
  }

  lemma {:induction false} FinishedStay(cap: int, ops: Program, before: seq<nat>, more: seq<nat>)
    requires forall p :: 0 <= p < |ops| ==> After(cap, ops, before).pcs[p].Finished?
    ensures After(cap, ops, before + more) == After(cap, ops, before)
  {
    if more == [] {
      assert before + more == before;
    } else {
      var n := |more| - 1;
      FinishedStay(cap, ops, before, more[..n]);
      assert (before + more)[..|before| + n] == before + more[..n];
    }
  }

  /** Everyone finishes: any schedule made of six rounds per process, in each of which every process
      gets a turn, brings all of them to their end. */
  lemma EveryoneFinishes(cap: int, ops: Program, rounds: seq<seq<nat>>, p: nat)
    requires forall i :: 0 <= i < |rounds| ==> Round(ops, rounds[i])
    requires |rounds| >= 6 * |ops| && p < |ops|
    ensures After(cap, ops, Concat(rounds)).pcs[p].Finished?
  {
    hide TotalLeft;
    RoundsBringDown(cap, ops, rounds);
    LeftWithinTotal(After(cap, ops, Concat(rounds)).pcs, p);
  }
}
