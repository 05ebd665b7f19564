/** list.h over afl-prealloc.h: a circular doubly linked list whose elements come from 64 slots kept
    inside the list and, once those are used up, from malloc. */
module PreallocList {

  /** Data pointers. */
  type Addr = nat
  const NULL: Addr := 0

  const LIST_PREALLOC_SIZE: nat := 64

  datatype Status = UNUSED | USED | MALLOC

  class Element {
    var status: Status
    var prev: Element?
    var next: Element?
    var data: Addr

    /** Zeroed memory. */
    constructor ()
      ensures status == UNUSED && prev == null && next == null && data == NULL
    {
      status, prev, next, data := UNUSED, null, null, NULL;
    }
  }

  // ---- sequences --------------------------------------------------------------------------------

  predicate Distinct<T(==)>(s: seq<T>) {
    forall i, j :: 0 <= i < j < |s| ==> s[i] != s[j]
  }

  /** The sequence without position k. */
  function Cut<T>(s: seq<T>, k: nat): (r: seq<T>)
    requires k < |s|
    ensures |r| == |s| - 1
  {
    s[..k] + s[k + 1..]
  }

  ghost function Elements<T>(s: seq<T>): set<T> { set e | e in s }

  lemma {:induction false} DistinctSize<T>(s: seq<T>)
    requires Distinct(s)
    ensures |Elements(s)| == |s|
  {
    if s != [] {
      var front, last := s[..|s| - 1], s[|s| - 1];
      DistinctSize(front);
      assert last !in front;
      assert Elements(s) == Elements(front) + {last};
    }
  }

  lemma Snoc<T>(s: seq<T>, x: T)
    requires Distinct(s) && x !in Elements(s)
    ensures Elements(s + [x]) == Elements(s) + {x} && Distinct(s + [x]) && x !in s
  {
  }

  lemma Counts<T>(p: set<T>, r: set<T>, x: T)
    ensures |p * (r + {x})| == |p * r| + if x in p && x !in r then 1 else 0
  {
    if x in p && x !in r {
      assert p * (r + {x}) == p * r + {x};
    } else {
      assert p * (r + {x}) == p * r;
    }
  }

  lemma CutElements<T>(s: seq<T>, k: nat)
    requires Distinct(s) && k < |s|
    ensures Elements(Cut(s, k)) == Elements(s) - {s[k]} && Distinct(Cut(s, k))
    ensures k > 0 ==> Cut(s, k)[0] == s[0]
    ensures s[k] in Elements(s) && s[k] !in Cut(s, k)
  {
    forall i | 0 <= i < |s| && i != k
      ensures s[i] in Cut(s, k)
    {
      assert s[i] == Cut(s, k)[if i < k then i else i - 1];
    }
  }

  function FirstIndex(s: seq<Addr>, x: Addr): (k: nat)
    requires x in s
    ensures k < |s| && s[k] == x && x !in s[..k]
  {
    if s[0] == x then 0 else 1 + FirstIndex(s[1..], x)
  }

  function RemoveFirst(s: seq<Addr>, x: Addr): seq<Addr>
    requires x in s
  {
    Cut(s, FirstIndex(s, x))
  }

  lemma {:induction false} FirstIs(s: seq<Addr>, x: Addr, k: nat)
    requires k < |s| && s[k] == x && x !in s[..k]
    ensures x in s && FirstIndex(s, x) == k
  {
    if k > 0 {
      assert s[..k][0] == s[0] && s[..k][1..] == s[1..][..k - 1];
      FirstIs(s[1..], x, k - 1);
    }
  }

  function Kept(s: seq<Addr>, doomed: Addr -> bool): seq<Addr> {
    if s == [] then []
    else Kept(s[..|s| - 1], doomed) + if doomed(s[|s| - 1]) then [] else [s[|s| - 1]]
  }

  lemma {:induction false} KeptNone(s: seq<Addr>)
    ensures Kept(s, _ => true) == []
  {
    if s != [] { KeptNone(s[..|s| - 1]); }
  }

  // ---- the ring -----------------------------------------------------------------------------------

  function Succ(k: nat, n: nat): nat { if k + 1 < n then k + 1 else 0 }

  /** Following next goes round the ring once and following prev goes round it the other way. */
  ghost predicate Linked(r: seq<Element>)
    reads r`next, r`prev
  {
    && (forall k :: 0 <= k < |r| ==> r[k].next == r[Succ(k, |r|)])
    && (forall k :: 0 <= k < |r| ==> r[Succ(k, |r|)].prev == r[k])
  }

  /** The elements after the head carry the items. */
  ghost predicate Holds(r: seq<Element>, items: seq<Addr>)
    reads r`data
  {
    |items| == (if r == [] then 0 else |r| - 1) && forall i :: 0 <= i < |items| ==> r[i + 1].data == items[i]
  }

  lemma HoldsSnoc(r: seq<Element>, items: seq<Addr>, el: Element)
    requires Holds(r, items) && r != []
    ensures Holds(r + [el], items + [el.data])
  {
  }

  lemma HoldsCut(r: seq<Element>, items: seq<Addr>, k: nat)
    requires Holds(r, items) && k + 1 < |r|
    ensures Holds(Cut(r, k + 1), Cut(items, k))
  {
  }

  lemma AloneInRing(head: Element)
    requires head.next == head && head.prev == head
    ensures Linked([head]) && Distinct([head]) && Holds([head], []) && Elements([head]) == {} + {head}
  {
  }

  /** el goes in before the head, that is at the end. */
  method LinkLast(head: Element, el: Element, ghost r: seq<Element>)
    requires |r| > 0 && r[0] == head && Linked(r) && Distinct(r) && el !in r
    modifies el`next, el`prev, Elements(r)`next, Elements(r)`prev
    ensures Linked(r + [el])
  {
    ghost var n := |r|;
    assert Succ(n - 1, n) == 0 && head.prev == r[n - 1];
    el.next := head;
    el.prev := head.prev;
    head.prev.next := el;
    head.prev := el;
  }

  method Unlink(el: Element, ghost r: seq<Element>, ghost k: nat)
    requires 0 < k < |r| && r[k] == el && Linked(r) && Distinct(r)
    modifies Elements(r)`next, Elements(r)`prev
    ensures Linked(Cut(r, k))
    ensures el.next == old(el.next)
  {
    ghost var n := |r|;
    assert r[Succ(k - 1, n)] == el && el.prev == r[k - 1] && el.next == r[Succ(k, n)];
    el.prev.next := el.next;
    el.next.prev := el.prev;
    ghost var cut := Cut(r, k);
    forall j | 0 <= j < n - 1
      ensures cut[j].next == cut[Succ(j, n - 1)] && cut[Succ(j, n - 1)].prev == cut[j]
    {
      if j == k - 1 {
        assert cut[Succ(j, n - 1)] == r[Succ(k, n)];
      } else {
        var i := if j < k then j else j + 1;
        assert r[i] == cut[j] && r[Succ(i, n)] == cut[Succ(j, n - 1)];
      }
    }
  }

  /** A list as a value: whether it was ever appended to, and what it holds. */
  datatype Model = Model(ready: bool, items: seq<Addr>)

  class List {
    const pool: seq<Element>
    var count: int
    ghost var ring: seq<Element>     // the head and then the elements; empty before initialisation
    ghost var items: seq<Addr>
    ghost var live: set<Element>     // malloc'ed and not yet freed

    function Head(): Element
      requires |pool| == LIST_PREALLOC_SIZE
    {
      pool[0]
    }

    /** A slot is used exactly when it is in the ring; what is in the ring from outside the pool is
        live malloc'ed memory, and all of that is in the ring; the counter counts the slots in it. */
    ghost predicate Owned(r: set<Element>)
      reads this`count, this`live, pool`status, live`status
    {
      && (forall e :: e in pool ==> e.status == if e in r then USED else UNUSED)
      && (forall e :: e in live ==> e.status == MALLOC && e in r && e !in pool)
      && (forall e :: e in r ==> e in pool || e in live)
      && count == |Elements(pool) * r|
    }

    ghost predicate RingOk()
      reads this`ring, this`items, pool`next, ring`next, ring`prev, ring`data
    {
      && |pool| == LIST_PREALLOC_SIZE && Distinct(pool)
      && (if ring == [] then Head().next == null else ring[0] == Head())
      && Linked(ring) && Distinct(ring) && Holds(ring, items)
    }

    ghost predicate Valid()
      reads this, pool, ring, live
    {
      RingOk() && Owned(Elements(ring))
    }

    ghost function Value(): Model
      reads this
    {
      Model(ring != [], items)
    }

    /** A zeroed list. */
    constructor ()
      ensures Valid() && ring == [] && items == [] && fresh(Elements(pool)) && Elements(ring) == {}
    {
      var p: seq<Element> := [];
      while |p| < LIST_PREALLOC_SIZE
        invariant |p| <= LIST_PREALLOC_SIZE && Distinct(p) && fresh(p)
        invariant forall i :: 0 <= i < |p| ==> p[i].status == UNUSED && p[i].next == null
      {
        var e := new Element();
        p := p + [e];
      }
      pool, count, ring, items, live := p, 0, [], [], {};
      new;
      assert Elements(pool) * Elements<Element>([]) == {};
    }

    lemma HeadTells()
      requires Valid()
      ensures Head().next == null <==> ring == []
    {
      if ring != [] { assert ring[0].next == ring[Succ(0, |ring|)]; }
    }

    /** The counter is the number of used slots, the head's among them. */
    lemma CounterIsUsedSlots()
      requires Valid()
      ensures count == |set e | e in pool && e.status == USED|
    {
      assert (set e | e in pool && e.status == USED) == Elements(pool) * Elements(ring);
    }

    lemma AllUsed(r: set<Element>)
      requires |pool| == LIST_PREALLOC_SIZE && Distinct(pool)
      requires forall i :: 0 <= i < |pool| ==> pool[i] in r
      ensures |Elements(pool) * r| == LIST_PREALLOC_SIZE
    {
      DistinctSize(pool);
      assert Elements(pool) * r == Elements(pool);
    }

    /** PRE_ALLOC: below 64 the scan finds an unused slot, so no element in use is handed out. */
    method PreAlloc(ghost r: set<Element>) returns (el: Element)
      requires |pool| == LIST_PREALLOC_SIZE && Distinct(pool) && Owned(r)
      modifies this`count, this`live, pool`status
      ensures el !in r && Owned(r + {el})
      ensures if old(count) < LIST_PREALLOC_SIZE then el in pool && live == old(live)
              else fresh(el) && el !in pool && live == old(live) + {el}
    {
      hide Distinct;
      if count >= LIST_PREALLOC_SIZE {
        el := Malloc();
      } else {
        el := FindUnused(r);
        count := count + 1;
        el.status := USED;
      }
      Counts(Elements(pool), r, el);
    }

    method Malloc() returns (el: Element)
      modifies this`live
      ensures fresh(el) && el !in pool && el.status == MALLOC && live == old(live) + {el}
    {
      el := new Element();
      el.status := MALLOC;
      live := live + {el};
    }

    method FindUnused(ghost r: set<Element>) returns (el: Element)
      requires |pool| == LIST_PREALLOC_SIZE && Distinct(pool) && Owned(r) && count < LIST_PREALLOC_SIZE
      ensures el in pool && el !in r
    {
      hide Distinct, Elements;
      var i := 0;
      while i < LIST_PREALLOC_SIZE && pool[i].status != UNUSED
        invariant i <= LIST_PREALLOC_SIZE
        invariant forall j :: 0 <= j < i ==> pool[j] in r
      {
        assert pool[i] in pool;
        i := i + 1;
      }
      if i == LIST_PREALLOC_SIZE { AllUsed(r); }
      el := pool[i];
      assert el in pool;
    }

    /** PRE_FREE; ok is false where the source stops with a fatal error. */
    method PreFree(el: Element, ghost r: set<Element>) returns (ok: bool)
      requires el in r && Owned(r)
      modifies el`status, this`count, this`live
      ensures ok && Owned(r - {el}) && el.status == UNUSED
      ensures if el in pool then live == old(live) else el in old(live) && live == old(live) - {el}
    {
      Counts(Elements(pool), r - {el}, el);
      assert r - {el} + {el} == r;
      match el.status {
        case USED =>
          el.status := UNUSED;
          count := count - 1;
          ok := count >= 0;
        case MALLOC =>
          el.status := UNUSED;
          live := live - {el};
          ok := true;
        case UNUSED =>
          ok := false;
      }
    }

    /** list_append; a first element comes with the initialisation of the list. */
    method Append(x: Addr) returns (ghost el: Element)
      requires Valid()
      modifies this, Elements(pool), Elements(ring)
      ensures Valid() && items == old(items) + [x]
      ensures ring == (if old(ring) == [] then [Head()] else old(ring)) + [el]
      ensures el !in old(ring) && fresh({el} - Elements(pool))
      ensures Elements(ring) <= Elements(old(ring)) + Elements(pool) + {el}
    {
      HeadTells();
      if Head().next == null { Initialise(); }
      el := AppendReady(x);
    }

    method AppendReady(x: Addr) returns (ghost el: Element)
      requires Valid() && ring != []
      modifies this`count, this`live, this`ring, this`items, pool, Elements(ring)
      ensures Valid() && items == old(items) + [x]
      ensures ring == old(ring) + [el] && el !in old(ring) && (el in pool || fresh(el))
    {
      hide Distinct, Linked;
      var box := PreAlloc(Elements(ring));
      box.data := x;
      Attach(box);
      el := box;
    }

    method Attach(box: Element)
      requires RingOk() && ring != [] && box !in Elements(ring) && Owned(Elements(ring) + {box})
      modifies this`ring, this`items, box`next, box`prev, Elements(ring)`next, Elements(ring)`prev
      ensures Valid() && ring == old(ring) + [box] && items == old(items) + [box.data]
    {
      hide Elements, Distinct, Linked, Holds, Owned;
      Snoc(ring, box);
      HoldsSnoc(ring, items, box);
      LinkLast(Head(), box, ring);
      ring, items := ring + [box], items + [box.data];
    }

    method MemSet()
      modifies this`count, pool
      ensures count == 0
      ensures forall e :: e in pool ==> e.status == UNUSED && e.prev == null && e.next == null && e.data == NULL
    {
      forall i | 0 <= i < |pool| { pool[i].status := UNUSED; }
      forall i | 0 <= i < |pool| { pool[i].prev := null; }
      forall i | 0 <= i < |pool| { pool[i].next := null; }
      forall i | 0 <= i < |pool| { pool[i].data := NULL; }
      count := 0;
    }

    /** The first use: memset, then the head takes the first slot. */
    method Initialise()
      requires Valid() && ring == []
      modifies this, pool
      ensures Valid() && ring == [Head()] && items == [] && live == {}
    {
      NoneLive();
      MemSet();
      var head := Head();
      head.status := USED;
      count := count + 1;
      head.next, head.prev := head, head;
      ring := [head];
      HeadAlone();
    }

    lemma NoneLive()
      requires Valid() && ring == []
      ensures live == {} && items == [] && |pool| == LIST_PREALLOC_SIZE && Distinct(pool)
    {
      assert forall e :: e in live ==> e in Elements(ring);
    }

    lemma HeadAlone()
      requires |pool| == LIST_PREALLOC_SIZE && Distinct(pool) && ring == [Head()] && items == [] && live == {} && count == 1
      requires forall e :: e in pool ==> e.status == if e == Head() then USED else UNUSED
      requires Head().next == Head() && Head().prev == Head()
      ensures Valid()
    {
      AloneInRing(Head());
      Counts(Elements(pool), {}, Head());
      hide Linked, Distinct, Holds;
    }

    /** Takes the element of item k out of the ring. */
    method TakeOut(el: Element, ghost k: nat)
      requires Valid() && k + 1 < |ring| && ring[k + 1] == el
      modifies this`ring, this`items, Elements(ring)`next, Elements(ring)`prev
      ensures RingOk() && ring == Cut(old(ring), k + 1) && items == Cut(old(items), k)
      ensures el.next == old(el.next) && el !in ring && el in Elements(old(ring))
      ensures Elements(ring) == Elements(old(ring)) - {el} && Owned(Elements(old(ring)))
    {
      hide Elements, Distinct, Linked, Holds, Owned, Cut;
      ghost var r := ring;
      CutElements(r, k + 1);
      Unlink(el, r, k + 1);
      HoldsCut(r, items, k);
      ring, items := Cut(r, k + 1), Cut(items, k);
    }

    method DropAt(box: Element, ghost k: nat) returns (ok: bool)
      requires Valid() && At(box, k) && box != Head()
      modifies this`ring, this`items, this`count, this`live, Elements(ring)`next, Elements(ring)`prev, Elements(ring)`status
      ensures ok && Valid() && k < |old(items)| && items == Cut(old(items), k)
      ensures ring != [] && At(box.next, k) && box.next == old(box.next) != null
      ensures Elements(ring) <= Elements(old(ring))
    {
      hide Elements, Distinct, Linked, Holds, Owned, Cut, Succ;
      HeldAt(box, k);
      Onward(box, k);
      ghost var r := ring;
      TakeOut(box, k);
      AfterCut(r, k + 1, box.next);
      ok := PreFree(box, Elements(r));
    }

    lemma AfterCut(r: seq<Element>, k: nat, next: Element?)
      requires 0 < k < |r| && next == r[Succ(k, |r|)] && ring == Cut(r, k) && Distinct(r)
      ensures At(next, k - 1)
    {
    }

    /** A foreach loop that has k items of the list behind it stands at box: the head when it is done. */
    ghost predicate At(box: Element?, k: nat)
      reads this`ring
    {
      k < |ring| && box == ring[Succ(k, |ring|)]
    }

    lemma HeldAt(box: Element, k: nat)
      requires Valid() && At(box, k)
      ensures k <= |items| && (k == |items| <==> box == Head())
      ensures k < |items| ==> box.data == items[k] && k + 1 < |ring| && box == ring[k + 1]
    {
    }

    lemma Onward(box: Element, k: nat)
      requires Valid() && At(box, k) && box != Head()
      ensures At(box.next, k + 1) && box.next != null
    {
    }

    lemma Start()
      requires Valid() && ring != []
      ensures At(Head().next, 0) && Head().next != null
    {
    }

    /** list_contains; ok is false on a list that was never appended to. */
    method Contains(x: Addr) returns (ok: bool, found: bool)
      requires Valid()
      ensures ok <==> ring != []
      ensures found <==> x in items
    {
      HeadTells();
      ok, found := true, false;
      var head := Head();
      if head.next == null {
        ReadyToHold();
        return false, false;
      }
      Start();
      var box := head.next;
      ghost var k := 0;
      while box != head
        invariant At(box, k) && k <= |items| && x !in items[..k]
        decreases |items| - k
      {
        HeldAt(box, k);
        if box.data == x { return true, true; }
        Onward(box, k);
        box := box.next;
        k := k + 1;
      }
      HeldAt(box, k);
    }

    lemma ReadyToHold()
      requires Valid()
      ensures ring == [] ==> items == []
    {
    }

    /** list_remove: the first match goes; ok is false where the source stops with a fatal error. */
    method Remove(x: Addr) returns (ok: bool)
      requires Valid()
      modifies this, Elements(ring)
      ensures Valid() && (ok <==> x in old(items)) && (ring == [] <==> old(ring) == [])
      ensures Elements(ring) <= Elements(old(ring))
      ensures items == if ok then RemoveFirst(old(items), x) else old(items)
    {
      HeadTells();
      ok := false;
      var head := Head();
      if head.next == null {
        ReadyToHold();
        return;
      }
      Start();
      var box := head.next;
      ghost var k: nat := 0;
      while box != head
        invariant Valid() && ring == old(ring) && items == old(items)
        invariant At(box, k) && k <= |items| && x !in items[..k]
        decreases |items| - k
      {
        HeldAt(box, k);
        if box.data == x {
          FirstIs(items, x, k);
          ok := RemoveAt(box, k);
          return;
        }
        Onward(box, k);
        box := box.next;
        k := k + 1;
      }
      HeldAt(box, k);
    }

    method RemoveAt(box: Element, ghost k: nat) returns (ok: bool)
      requires Valid() && k + 1 < |ring| && ring[k + 1] == box
      modifies this`ring, this`items, this`count, this`live, Elements(ring)
      ensures ok && Valid() && k < |old(items)| && items == Cut(old(items), k)
      ensures ring != [] && Elements(ring) <= Elements(old(ring))
    {
      hide Distinct, Linked, Cut, Succ, Owned;
      ghost var was := Elements(ring);
      TakeOut(box, k);
      ForgetData(box);
      hide RingOk, Elements;
      ok := PreFree(box, was);
    }

    method ForgetData(box: Element)
      requires RingOk() && box !in ring
      modifies box`data
      ensures RingOk() && box.data == NULL
    {
      hide Linked, Distinct;
      box.data := NULL;
    }

    /** LIST_FOREACH whose block removes the current element when it is doomed: every element is
        visited once, in order. */
    method ForeachRemove(doomed: Addr -> bool) returns (ok: bool, seen: seq<Addr>)
      requires Valid()
      modifies this, Elements(ring)
      ensures Valid() && (ok <==> old(ring) != []) && (ring == [] <==> old(ring) == [])
      ensures Elements(ring) <= Elements(old(ring))
      ensures seen == old(items) && items == Kept(old(items), doomed)
    {
      HeadTells();
      ok, seen := true, [];
      var head := Head();
      if head.next == null {
        ReadyToHold();
        ok := false;
        return;
      }
      Start();
      var box := head.next;
      ghost var k: nat := 0;   // how many of those seen were kept
      ProgressStarts(items, doomed);
      hide RingOk, Owned, Progress, At, Elements;
      while box != head
        invariant ring != [] && Valid() && At(box, k) && box != null
        invariant Progress(old(items), items, seen, k, doomed)
        invariant ok && Elements(ring) <= Elements(old(ring)) && head == Head()
        decreases |old(items)| - |seen|
      {
        HeldAt(box, k);
        ProgressStep(old(items), items, seen, k, doomed);
        var next := box.next;
        var data := box.data;
        Onward(box, k);
        if doomed(data) {
          ok := DropAt(box, k);
        } else {
          k := k + 1;
        }
        seen := seen + [data];
        box := next;
      }
      HeldAt(box, k);
      ProgressEnds(old(items), items, seen, k, doomed);
    }
  }

  // ---- whole runs ---------------------------------------------------------------------------------

  datatype Op =
    | Append(x: Addr)
    | Remove(x: Addr)
    | Contains(x: Addr)
    | ForeachRemove(doomed: Addr -> bool)

  datatype Answer = Done | Found(found: bool) | Seen(seen: seq<Addr>)

  datatype Outcome = Fatal | Went(m: Model, a: Answer)

  function Apply(m: Model, op: Op): Outcome {
    match op
    case Append(x) => Went(Model(true, m.items + [x]), Done)
    case Remove(x) => if m.ready && x in m.items then Went(Model(true, RemoveFirst(m.items, x)), Done) else Fatal
    case Contains(x) => if m.ready then Went(m, Found(x in m.items)) else Fatal
    case ForeachRemove(doomed) => if m.ready then Went(Model(true, Kept(m.items, doomed)), Seen(m.items)) else Fatal
  }

  /** A run of operations up to the first fatal error: the list at its end and the answers. */
  function RunModel(m: Model, ops: seq<Op>): (Model, seq<Answer>, bool) {
    if ops == [] then (m, [], true)
    else
      var (m', answers, ok) := RunModel(m, ops[..|ops| - 1]);
      if !ok then (m', answers, false)
      else
        match Apply(m', ops[|ops| - 1])
        case Fatal => (m', answers, false)
        case Went(m'', a) => (m'', answers + [a], true)
  }

  /** What an operation on a list with the value m must lead to. */
  ghost predicate Leads(m: Model, op: Op, ok: bool, a: Answer, m': Model) {
    match Apply(m, op)
    case Fatal => !ok && m' == m
    case Went(after, answer) => ok && m' == after && a == answer
  }

  method StepAppend(list: List, x: Addr) returns (ghost el: set<Element>)
    requires list.Valid()
    modifies list, Elements(list.pool), Elements(list.ring)
    ensures list.Valid() && fresh(el - Elements(list.pool))
    ensures Elements(list.ring) <= old(Elements(list.ring)) + Elements(list.pool) + el
    ensures Leads(old(list.Value()), Append(x), true, Done, list.Value())
  {
    hide List.Valid, Elements;
    ghost var e := list.Append(x);
    el := {e};
  }

  method StepRemoving(list: List, op: Op) returns (ok: bool, a: Answer)
    requires list.Valid() && (op.Remove? || op.ForeachRemove?)
    modifies list, Elements(list.ring)
    ensures list.Valid() && Elements(list.ring) <= old(Elements(list.ring))
    ensures Leads(old(list.Value()), op, ok, a, list.Value())
  {
    list.ReadyToHold();
    hide List.Valid, Elements, Kept, RemoveFirst, Cut;
    a := Done;
    if op.Remove? {
      ok := list.Remove(op.x);
    } else {
      var seen: seq<Addr>;
      ok, seen := list.ForeachRemove(op.doomed);
      a := Seen(seen);
    }
  }

  method StepContains(list: List, x: Addr) returns (ok: bool, a: Answer)
    requires list.Valid()
    ensures Leads(list.Value(), Contains(x), ok, a, list.Value())
  {
    hide List.Valid, Elements;
    var found: bool;
    ok, found := list.Contains(x);
    a := Found(found);
  }

  method Step(list: List, op: Op) returns (ok: bool, a: Answer, ghost el: set<Element>)
    requires list.Valid()
    modifies list, Elements(list.pool), Elements(list.ring)
    ensures list.Valid() && fresh(el - Elements(list.pool))
    ensures Elements(list.ring) <= old(Elements(list.ring)) + Elements(list.pool) + el
    ensures Leads(old(list.Value()), op, ok, a, list.Value())
  {
    hide List.Valid, Elements, Leads;
    ok, a, el := true, Done, {};
    match op {
      case Append(x) => el := StepAppend(list, x);
      case Contains(x) => ok, a := StepContains(list, x);
      case _ => ok, a := StepRemoving(list, op);
    }
  }

  /** Over any run a fresh list behaves as the sequence of its items, and stops where it does. */
  method Run(ops: seq<Op>) returns (list: List, answers: seq<Answer>, ok: bool)
    ensures fresh(list) && list.Valid()
    ensures (list.Value(), answers, ok) == RunModel(Model(false, []), ops)
  {
    hide List.Valid, Elements, Apply;
    list := new List();
    answers, ok := [], true;
    ghost var extra: set<Element> := {};
    var i := 0;
    while i < |ops|
      invariant i <= |ops| && fresh(list) && list.Valid() && fresh(Elements(list.pool)) && fresh(extra)
      invariant ok && Elements(list.ring) <= Elements(list.pool) + extra
      invariant (list.Value(), answers, ok) == RunModel(Model(false, []), ops[..i])
    {
      assert ops[..i + 1][..i] == ops[..i];
      var a: Answer;
      ghost var el: set<Element>;
      ok, a, el := Step(list, ops[i]);
      if !ok {
        RunStops(Model(false, []), ops, i + 1);
        return;
      }
      answers := answers + [a];
      extra := extra + (el - Elements(list.pool));
      i := i + 1;
    }
    assert ops[..|ops|] == ops;
  }

  lemma {:induction false} RunStops(m: Model, ops: seq<Op>, i: nat)
    requires i <= |ops| && !RunModel(m, ops[..i]).2
    ensures RunModel(m, ops) == RunModel(m, ops[..i])
    decreases |ops|
  {
    if i == |ops| {
      assert ops[..i] == ops;
    } else {
      assert ops[..|ops| - 1][..i] == ops[..i];
      RunStops(m, ops[..|ops| - 1], i);
    }
  }

  /** After seen, k items are kept and stand before those still to come. */
  ghost predicate Progress(was: seq<Addr>, items: seq<Addr>, seen: seq<Addr>, k: nat, doomed: Addr -> bool) {
    && |seen| <= |was| && seen == was[..|seen|]
    && k == |Kept(seen, doomed)| && items == Kept(seen, doomed) + was[|seen|..]
  }

  lemma ProgressStarts(was: seq<Addr>, doomed: Addr -> bool)
    ensures Progress(was, was, [], 0, doomed)
  {
  }

  lemma ProgressEnds(was: seq<Addr>, items: seq<Addr>, seen: seq<Addr>, k: nat, doomed: Addr -> bool)
    requires Progress(was, items, seen, k, doomed) && k == |items|
    ensures seen == was && items == Kept(was, doomed)
  {
  }

  lemma ProgressStep(was: seq<Addr>, items: seq<Addr>, seen: seq<Addr>, k: nat, doomed: Addr -> bool)
    requires Progress(was, items, seen, k, doomed) && k < |items|
    ensures |seen| < |was|
    ensures if doomed(items[k]) then Progress(was, Cut(items, k), seen + [items[k]], k, doomed)
            else Progress(was, items, seen + [items[k]], k + 1, doomed)
  {
    var x := was[|seen|];
    assert items[k] == x && (seen + [x])[..|seen|] == seen;
    assert was[..|seen| + 1] == seen + [x];
  }
}
