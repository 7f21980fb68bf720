/** absl/container/inlined_vector.h over any number of vectors that share one heap. */
module InlinedVector {
  import opened VectorCells
  import opened VectorWorld

  /** What the value type allows; the allocator is std::allocator. */
  datatype Traits = Traits(triviallyRelocatable: bool, triviallyCopyConstructible: bool,
                           triviallyMoveConstructible: bool,
                           triviallyMoveAssignable: bool, triviallyDestructible: bool,
                           moveAssignable: bool, swappable: bool)
  {
    function MoveAssignmentPolicy(): Policy
    {
      if triviallyMoveAssignable && triviallyDestructible then Memcpy
      else if moveAssignable then Elementwise
      else ElementwiseConstruct
    }

    function SwapInlinedElementsPolicy(): Policy
    {
      if triviallyMoveConstructible && triviallyMoveAssignable && triviallyDestructible then Memcpy
      else if swappable then Elementwise
      else ElementwiseConstruct
    }

    /** MemcpyFrom may copy inline elements in one of these cases only. */
    predicate MemcpyOk()
    {
      || triviallyRelocatable
      || (triviallyMoveAssignable && triviallyDestructible)
      || triviallyCopyConstructible
    }
  }

  /** A policy is taken only where the value type allows what it does. */
  lemma PoliciesAllowed(t: Traits)
    ensures t.MoveAssignmentPolicy().Memcpy? <==> t.triviallyMoveAssignable && t.triviallyDestructible
    ensures t.MoveAssignmentPolicy().Elementwise? ==> t.moveAssignable
    ensures t.MoveAssignmentPolicy().ElementwiseConstruct? ==> !t.moveAssignable
    ensures t.SwapInlinedElementsPolicy().Memcpy?
       <==> t.triviallyMoveConstructible && t.triviallyMoveAssignable && t.triviallyDestructible
    ensures t.SwapInlinedElementsPolicy().Elementwise? ==> t.swappable
    ensures t.SwapInlinedElementsPolicy().ElementwiseConstruct? ==> !t.swappable
  {
  }

  datatype Policy = Memcpy | Elementwise | ElementwiseConstruct

  function ComputeCapacity(current: nat, requested: nat): nat
  {
    if 2 * current > requested then 2 * current else requested
  }

  /** A vector that was moved from is empty or keeps as many moved-from elements. */
  ghost predicate Spent<T>(before: seq<Cell<T>>, after: seq<Cell<T>>)
  {
    after == [] || after == Husks(|before|)
  }

  function InsertedAt<T>(s: seq<T>, index: nat, added: seq<T>): seq<T>
    requires index <= |s|
  {
    s[..index] + added + s[index..]
  }

  lemma InsertedNext<T>(s: seq<T>, index: nat, values: seq<T>, i: nat)
    requires index <= |s| && i < |values|
    ensures index + i <= |InsertedAt(s, index, values[..i])|
    ensures InsertedAt(InsertedAt(s, index, values[..i]), index + i, [values[i]])
            == InsertedAt(s, index, values[..i + 1])
  {
    assert values[..i] + [values[i]] == values[..i + 1];
  }

  datatype Op<T> =
    | Construct(id: nat, values: seq<Cell<T>>) | CopyConstruct(id: nat, from: nat) | MoveConstruct(id: nat, from: nat)
    | Assign(id: nat, input: Input<T>) | AssignOnce(id: nat, values: seq<Cell<T>>)
    | CopyAssign(to: nat, from: nat) | MoveAssign(to: nat, from: nat)
    | Insert(id: nat, index: nat, input: Input<T>) | InsertOnce(id: nat, index: nat, values: seq<Cell<T>>)
    | EmplaceBack(id: nat, input: Input<T>) | PopBack(id: nat) | Erase(id: nat, from: nat, to: nat)
    | Clear(id: nat) | ShrinkToFit(id: nat) | Swap(a: nat, b: nat) | Destroy(id: nat)

  /** What the operations demand of their callers, on the plain model. */
  predicate Legal<T>(m: map<nat, seq<Cell<T>>>, op: Op<T>)
  {
    match op
    case Construct(id, values) => id !in m && ElementsIn(values, 0, |values|)
    case CopyConstruct(id, from) => id !in m && from in m
    case MoveConstruct(id, from) => id !in m && from in m
    case Assign(id, input) => id in m && input.Readable(m[id])
    case AssignOnce(id, values) => id in m && ElementsIn(values, 0, |values|)
    case CopyAssign(to, from) => to in m && from in m
    case MoveAssign(to, from) => to in m && from in m
    case Insert(id, index, input) => id in m && index <= |m[id]| && input.Readable(m[id])
    case InsertOnce(id, index, values) => id in m && index <= |m[id]| && ElementsIn(values, 0, |values|)
    case EmplaceBack(id, input) => id in m && input.Count() == 1 && input.Readable(m[id])
    case PopBack(id) => id in m && 0 < |m[id]|
    case Erase(id, from, to) => id in m && from <= to <= |m[id]|
    case Clear(id) => id in m
    case ShrinkToFit(id) => id in m
    case Swap(a, b) => a in m && b in m
    case Destroy(id) => id in m
  }

  /** One step of the plain sequences; only what a move leaves behind is not fixed. */
  ghost predicate Next<T>(m: map<nat, seq<Cell<T>>>, op: Op<T>, m': map<nat, seq<Cell<T>>>)
    requires Legal(m, op)
  {
    match op
    case Construct(id, values) => m' == m[id := values]
    case CopyConstruct(id, from) => m' == m[id := m[from]]
    case MoveConstruct(id, from) => Moves(m, id, from, m')
    case Assign(id, input) => m' == m[id := input.All(m[id])]
    case AssignOnce(id, values) => m' == m[id := values]
    case CopyAssign(to, from) => m' == m[to := m[from]]
    case MoveAssign(to, from) => if to == from then m' == m else Moves(m, to, from, m')
    case Insert(id, index, input) => m' == m[id := InsertedAt(m[id], index, input.All(m[id]))]
    case InsertOnce(id, index, values) => m' == m[id := InsertedAt(m[id], index, values)]
    case EmplaceBack(id, input) => m' == m[id := m[id] + input.All(m[id])]
    case PopBack(id) => m' == m[id := m[id][..|m[id]| - 1]]
    case Erase(id, from, to) => m' == m[id := m[id][..from] + m[id][to..]]
    case Clear(id) => m' == m[id := []]
    case ShrinkToFit(id) => m' == m
    case Swap(a, b) => m' == m[a := m[b]][b := m[a]]
    case Destroy(id) => m' == m - {id}
  }

  ghost predicate Moves<T>(m: map<nat, seq<Cell<T>>>, to: nat, from: nat, m': map<nat, seq<Cell<T>>>)
    requires from in m
  {
    from in m' && Spent(m[from], m'[from]) && m' == m[to := m[from]][from := m'[from]]
  }

  ghost predicate Behaves<T>(script: seq<Op<T>>, trace: seq<map<nat, seq<Cell<T>>>>)
  {
    && |trace| == |script| + 1
    && forall i :: 0 <= i < |script| ==> Legal(trace[i], script[i]) && Next(trace[i], script[i], trace[i + 1])
  }

  lemma SameUpdate<K, V>(m: map<K, V>, k: K)
    requires k in m
    ensures m[k := m[k]] == m
  {
  }

  lemma Traded<K, V>(m: map<K, seq<V>>, a: K, b: K)
    requires a in m && b in m && a != b
    ensures m[b := []][b := m[a]][a := []][a := m[b]] == m[a := m[b]][b := m[a]]
  {
  }

  lemma EmptyInlined<T>(n: nat)
    ensures var s := Empty<T>(n); s.data == Inlined(Raws(n)) && s.meta == 0
  {
  }

  /** Moving leaves the number of elements as it is, apart from what the target had and the source keeps. */
  lemma Moving<T>(m: map<nat, seq<Cell<T>>>, to: nat, from: nat, kept: seq<Cell<T>>)
    requires from in m && to != from
    ensures Total(m[to := m[from]][from := kept]) == Total(m) - (if to in m then |m[to]| else 0) + |kept|
  {
    TotalPut(m, to, m[from]);
    TotalPut(m[to := m[from]], from, kept);
  }

  lemma Swapping<T>(m: map<nat, seq<Cell<T>>>, a: nat, b: nat)
    requires a in m && b in m && a != b
    ensures Total(m[a := m[b]][b := m[a]]) == Total(m)
    ensures m[a := m[b]][b := m[a]] == m[b := m[a]][a := m[b]]
  {
    TotalPut(m, a, m[b]);
    TotalPut(m[a := m[b]], b, m[a]);
  }

  class Vectors<T> {
    const inlined: nat
    const traits: Traits
    var blocks: map<nat, seq<Cell<T>>>
    var vecs: map<nat, Storage<T>>
    var freed: seq<nat>
    var next: nat
    ghost var owners: map<nat, nat>
    ghost var ledger: Ledger

    ghost function Now(): World<T>
      reads `blocks, `vecs, `freed, `next, `owners
    {
      World(blocks, vecs, freed, next, owners)
    }

    /** The storages are in order; element counts may be off in the middle of an operation. */
    ghost predicate Intact()
      reads `blocks, `vecs, `freed, `next, `owners
    {
      0 < inlined && Sound(Now(), inlined)
    }

    ghost function Elements(): (m: map<nat, seq<Cell<T>>>)
      requires Intact()
      reads `blocks, `vecs, `freed, `next, `owners
      ensures m.Keys == vecs.Keys
    {
      Model(Now(), inlined)
    }

    /** Every element that began its life and has not ended it sits in some vector. */
    ghost predicate Valid()
      reads this
    {
      Intact() && ledger.made == ledger.ended + Total(Elements())
    }

    /** The elements of every vector, read through data() and size(). */
    function Snapshot(): (m: map<nat, seq<Cell<T>>>)
      requires Intact()
      reads this
      ensures m == Elements()
    {
      map id | id in vecs :: vecs[id].Contents(inlined, blocks)
    }

    constructor (inlinedCapacity: nat, traits: Traits)
      requires 0 < inlinedCapacity
      ensures Valid() && Elements() == map[] && freed == [] && next == 0
      ensures inlined == inlinedCapacity && this.traits == traits
    {
      inlined, this.traits := inlinedCapacity, traits;
      blocks, vecs, freed, next, owners, ledger := map[], map[], [], 0, map[], Ledger(0, 0);
    }

    /** MakeStorageView. */
    method View(id: nat) returns (buf: seq<Cell<T>>, size: nat)
      requires Intact() && id in vecs
      ensures size <= |buf| && Layout(buf, size) && Elements()[id] == buf[..size] && |buf| >= inlined
      ensures vecs[id].Placed(inlined, blocks) && buf == vecs[id].Buffer(inlined, blocks) && size == vecs[id].Size()
      ensures |buf| == Capacity(id)
    {
      ModelAt(Now(), inlined, id);
      buf := if vecs[id].IsAllocated() then blocks[vecs[id].data.ptr] else vecs[id].data.cells;
      size := vecs[id].Size();
    }

    /** capacity(). */
    function Capacity(id: nat): nat
      requires id in vecs
      reads this
    {
      if vecs[id].data.Allocated? then vecs[id].data.capacity else inlined
    }

    lemma Located(id: nat)
      requires Intact() && id in vecs
      ensures vecs[id].Placed(inlined, blocks)
    {
    }

    // The storage primitives.  None of them begins or ends the life of an element, and none gives up
    // memory that still holds one.

    method Create(id: nat)
      requires Intact() && id !in vecs
      modifies `vecs
      ensures Now() == Created(old(Now()), inlined, id)
      ensures Intact() && Elements() == old(Elements())[id := []]
    {
      hide Sound, Model;
      CreatedSound(Now(), inlined, id);
      vecs := vecs[id := Empty(inlined)];
    }

    method Remove(id: nat)
      requires Intact() && id in vecs && vecs[id].data.Inlined? && Elements()[id] == []
      modifies `vecs
      ensures Intact() && Elements() == old(Elements()) - {id}
    {
      hide Sound, Model;
      RemovedSound(Now(), inlined, id);
      vecs := vecs - {id};
    }

    /** Puts the cells an operation has worked on back into the vector's own buffer and sets its size. */
    method Store(id: nat, buf: seq<Cell<T>>, size: nat)
      requires Intact() && id in vecs && vecs[id].Placed(inlined, blocks)
      requires |buf| == |vecs[id].Buffer(inlined, blocks)| && Layout(buf, size)
      modifies `blocks, `vecs
      ensures Now() == Stored(old(Now()), id, buf, size)
      ensures Intact() && Elements() == old(Elements())[id := buf[..size]]
    {
      hide Sound, Model;
      StoredSound(Now(), inlined, id, buf, size);
      if vecs[id].IsAllocated() {
        var ptr := vecs[id].data.ptr;
        blocks := blocks[ptr := buf];
        vecs := vecs[id := Storage(2 * size + 1, vecs[id].data)];
      } else {
        vecs := vecs[id := Storage(2 * size, Inlined(buf))];
      }
    }

    /** DeallocateIfAllocated, with no element left in the buffer, then SetInlinedSize(0). */
    method Release(id: nat)
      requires Intact() && id in vecs && vecs[id].Placed(inlined, blocks) && Elements()[id] == []
      modifies `blocks, `vecs, `freed, `owners
      ensures Now() == Released(old(Now()), inlined, id)
      ensures Intact() && Elements() == old(Elements())[id := []]
    {
      hide Sound, Model;
      ReleasedSound(Now(), inlined, id);
      if vecs[id].IsAllocated() {
        var ptr := vecs[id].data.ptr;
        blocks, freed, owners := blocks - {ptr}, freed + [ptr], owners - {ptr};
      }
      vecs := vecs[id := Empty(inlined)];
    }

    /** Allocate, SetAllocation and SetAllocatedSize. */
    method House(id: nat, buf: seq<Cell<T>>, size: nat)
      requires Intact() && id in vecs && vecs[id].data.Inlined? && Elements()[id] == []
      requires inlined < |buf| && Layout(buf, size)
      modifies `blocks, `vecs, `next, `owners
      ensures Now() == Housed(old(Now()), id, buf, size)
      ensures Intact() && Elements() == old(Elements())[id := buf[..size]]
    {
      hide Sound, Model;
      HousedSound(Now(), inlined, id, buf, size);
      blocks, owners := blocks[next := buf], owners[next := id];
      vecs := vecs[id := Storage(2 * size + 1, Allocated(next, |buf|))];
      next := next + 1;
    }

    /** MemcpyFrom, then SetInlinedSize(0) on the source. */
    method Adopt(to: nat, from: nat)
      requires Intact() && to in vecs && from in vecs && to != from && vecs[to].data.Inlined? && Elements()[to] == []
      requires vecs[from].IsAllocated() || traits.MemcpyOk()
      requires vecs[from].Placed(inlined, blocks)
      modifies `vecs, `owners
      ensures Now() == Adopted(old(Now()), inlined, to, from)
      ensures Intact() && Elements() == old(Elements())[to := old(Elements())[from]][from := []]
    {
      hide Sound, Model;
      AdoptedSound(Now(), inlined, to, from);
      if vecs[from].IsAllocated() {
        owners := owners[vecs[from].data.ptr := to];
      }
      vecs := vecs[to := vecs[from]][from := Empty(inlined)];
    }

    /** Swaps the data and the packed sizes. */
    method Exchange(a: nat, b: nat)
      requires Intact() && a in vecs && b in vecs && a != b
      modifies `vecs, `owners
      ensures Intact() && Elements() == old(Elements())[a := old(Elements())[b]][b := old(Elements())[a]]
      ensures vecs == old(vecs)[a := old(vecs)[b]][b := old(vecs)[a]]
    {
      hide Sound, Model;
      ExchangedSound(Now(), inlined, a, b);
      owners := Exchanged(Now(), a, b).owners;
      vecs := vecs[a := vecs[b]][b := vecs[a]];
    }

    /** The buffer, raw by now, is given back. */
    method Vacate(id: nat, left: seq<Cell<T>>)
      requires Intact() && id in vecs && vecs[id].Placed(inlined, blocks)
      requires |left| == |vecs[id].Buffer(inlined, blocks)| && RawIn(left, 0, |left|)
      modifies `blocks, `vecs, `freed, `owners
      ensures Intact() && Elements() == old(Elements())[id := []] && vecs[id] == Empty(inlined)
      ensures vecs == old(vecs)[id := vecs[id]]
    {
      hide Sound, Model;
      RawLayout(left);
      Store(id, left, 0);
      Located(id);
      Release(id);
    }

    /** The elements have moved to a new block and the old buffer is given back. */
    method Rehouse(id: nat, left: seq<Cell<T>>, buf: seq<Cell<T>>, size: nat)
      requires Intact() && id in vecs && vecs[id].Placed(inlined, blocks)
      requires |left| == |vecs[id].Buffer(inlined, blocks)| && RawIn(left, 0, |left|)
      requires inlined < |buf| && Layout(buf, size)
      modifies `blocks, `vecs, `freed, `next, `owners
      ensures Intact() && Elements() == old(Elements())[id := buf[..size]]
      ensures vecs[id].data.Allocated? && vecs[id].data.capacity == |buf| && next == old(next) + 1
    {
      hide Sound, Model;
      Vacate(id, left);
      House(id, buf, size);
    }

    /** DestroyElements; for a trivially destructible type there is nothing to do. */
    method EndLifetimes(buf: seq<Cell<T>>, size: nat, ghost before: Ledger)
      returns (left: seq<Cell<T>>, ghost after: Ledger)
      requires Layout(buf, size)
      ensures |left| == |buf| && RawIn(left, 0, |left|) && after == before.Ended(size)
    {
      if traits.triviallyDestructible {
        left, after := Forget(buf, size, before);
      } else {
        left, after := DestroyElements(buf, 0, size, before);
      }
    }

    /** What an operation did to elements is booked; the books must balance. */
    ghost method Book(after: Ledger, m: map<nat, seq<Cell<T>>>)
      requires Intact() && Elements() == m && after.made == after.ended + Total(m)
      modifies `ledger
      ensures Valid() && ledger == after
    {
      ledger := after;
    }

    /** Constructs elements in the inline cells or in a new block of a vector that has none. */
    method Fill(id: nat, values: seq<Cell<T>>, capacity: nat, ghost before: Ledger) returns (ghost after: Ledger)
      requires Intact() && id in vecs && vecs[id] == Empty(inlined) && Elements()[id] == []
      requires ElementsIn(values, 0, |values|) && |values| <= capacity && inlined <= capacity
      modifies `blocks, `vecs, `next, `owners
      ensures Intact() && Elements() == old(Elements())[id := values] && after == before.Made(|values|)
      ensures vecs[id].data.Allocated? == (capacity > inlined) && Capacity(id) == capacity
      ensures next == old(next) + if capacity > inlined then 1 else 0
    {
      hide Sound, Model, Layout;
      var buf;
      if capacity > inlined {
        buf, after := ConstructAll(values, Raws(capacity), before);
        House(id, buf, |values|);
      } else {
        var raw, _ := View(id);
        buf, after := ConstructAll(values, raw, before);
        Store(id, buf, |values|);
      }
    }

    /** Move-constructs the inline elements of one vector in the inline cells of another. */
    method MoveInto(to: nat, from: nat, ghost before: Ledger) returns (ghost after: Ledger)
      requires Intact() && to in vecs && from in vecs && to != from && !vecs[from].IsAllocated()
      requires vecs[to] == Empty(inlined) && Elements()[to] == []
      modifies `blocks, `vecs
      ensures Intact() && after == before.Made(|old(Elements())[from]|)
      ensures Elements() == old(Elements())[to := old(Elements())[from]][from := Husks(|old(Elements())[from]|)]
      ensures to in vecs && from in vecs && Capacity(to) == Capacity(from) == inlined
    {
      hide Sound, Model, Layout;
      Located(from);
      var src, n := View(from);
      var raw, _ := View(to);
      var dst;
      src, dst, after := MoveAll(src, n, raw, before);
      Store(to, dst, n);
      Store(from, src, n);
    }

    // Construction and destruction.

    /** Storage::Initialize from a range. */
    method Construct(id: nat, values: seq<Cell<T>>)
      requires Valid() && id !in vecs && ElementsIn(values, 0, |values|)
      modifies this
      ensures Valid() && Elements() == old(Elements())[id := values]
      ensures vecs[id].data.Allocated? <==> |values| > inlined
      ensures Capacity(id) == if |values| <= inlined then inlined
                              else if |values| <= 2 * inlined then 2 * inlined else |values|
      ensures next == old(next) + if |values| > inlined then 1 else 0
    {
      hide Sound, Model, Layout, Total, Empty;
      TotalPut(Elements(), id, values);
      Create(id);
      var n := |values|;
      ghost var after := Fill(id, values, if n > inlined then ComputeCapacity(inlined, n) else inlined, ledger);
      Book(after, old(Elements())[id := values]);
    }

    /** The copy constructor: nothing, a memcpy of the inline bytes, or Storage::InitFrom. */
    method CopyConstruct(id: nat, from: nat)
      requires Valid() && id !in vecs && from in vecs
      modifies this
      ensures Valid() && Elements() == old(Elements())[id := old(Elements())[from]]
      ensures var n := |old(Elements())[from]|;
              Capacity(id) == if n == 0 || !old(vecs[from].IsAllocated()) then inlined
                              else if n <= 2 * inlined then 2 * inlined else n
    {
      hide Sound, Model, Layout, Total, Empty;
      TotalPut(Elements(), id, Elements()[from]);
      var buf, n := View(from);
      LayoutElements(buf, n);
      var onHeap := vecs[from].IsAllocated();
      EmptyInlined<T>(inlined);
      Create(id);
      ghost var after := ledger;
      if n == 0 {
      } else if traits.triviallyCopyConstructible && !onHeap {
        var raw, _ := View(id);
        var dst;
        dst, after := CopyBytes(buf, n, raw, ledger);
        Store(id, dst, n);
      } else {
        after := Fill(id, buf[..n], if onHeap then ComputeCapacity(inlined, n) else inlined, ledger);
      }
      Book(after, old(Elements())[id := old(Elements())[from]]);
    }

    /** The move constructor: the whole storage, the heap block, or element by element. */
    method MoveConstruct(id: nat, from: nat)
      requires Valid() && id !in vecs && from in vecs
      modifies this
      ensures Valid() && from in vecs && Spent(old(Elements())[from], Elements()[from])
      ensures Elements() == old(Elements())[id := old(Elements())[from]][from := Elements()[from]]
      ensures Elements()[from] == if traits.triviallyRelocatable || old(vecs[from].IsAllocated()) then []
                                  else Husks(|old(Elements())[from]|)
      ensures next == old(next) && Capacity(id) == old(Capacity(from)) && Capacity(from) == inlined
      ensures traits.triviallyRelocatable || old(vecs[from].IsAllocated()) ==> ledger == old(ledger)
    {
      hide Sound, Model, Layout, Total, Empty;
      ghost var n := |Elements()[from]|;
      Moving(Elements(), id, from, []);
      Moving(Elements(), id, from, Husks(n));
      Create(id);
      Located(from);
      EmptyInlined<T>(inlined);
      ghost var after := ledger;
      if traits.triviallyRelocatable || vecs[from].IsAllocated() {
        Adopt(id, from);
        Book(after, old(Elements())[id := old(Elements())[from]][from := []]);
      } else {
        after := MoveInto(id, from, ledger);
        Book(after, old(Elements())[id := old(Elements())[from]][from := Husks(n)]);
      }
    }

    method Destroy(id: nat)
      requires Valid() && id in vecs
      modifies this
      ensures Valid() && Elements() == old(Elements()) - {id}
    {
      hide Sound, Model, Layout, Total;
      TotalTake(Elements(), id);
      var buf, n := View(id);
      var left;
      ghost var after;
      left, after := EndLifetimes(buf, n, ledger);
      Vacate(id, left);
      Remove(id);
      Book(after, old(Elements()) - {id});
    }

    // Assignment.

    /** Storage::Assign. */
    method Assign(id: nat, input: Input<T>)
      requires Valid() && id in vecs && input.Readable(Elements()[id])
      modifies this
      ensures Valid() && Elements() == old(Elements())[id := input.All(old(Elements())[id])]
      ensures var had, need := old(Capacity(id)), input.Count();
              Capacity(id) == if need <= had then had else if need <= 2 * had then 2 * had else need
    {
      hide Sound, Model, Layout, Total;
      TotalPut(Elements(), id, input.All(Elements()[id]));
      var buf, size := View(id);
      InputFromElements(buf, size, input);
      var n := input.Count();
      ghost var after;
      if n > |buf| {
        var left, r;
        left, r, after := AssignElsewhere(buf, size, input, ComputeCapacity(|buf|, n), ledger);
        Rehouse(id, left, r, n);
      } else {
        var r;
        r, after := AssignInPlace(buf, size, input, ledger);
        Store(id, r, n);
      }
      Book(after, old(Elements())[id := input.All(old(Elements())[id])]);
    }

    /** Copy assignment. */
    method CopyAssign(to: nat, from: nat)
      requires Valid() && to in vecs && from in vecs
      modifies this
      ensures Valid() && Elements() == old(Elements())[to := old(Elements())[from]]
    {
      hide Sound, Model, Layout, Total;
      if to != from {
        var buf, n := View(from);
        LayoutElements(buf, n);
        Assign(to, Values(buf[..n]));
        assert Values(buf[..n]).All(old(Elements())[to]) == buf[..n];
      }
    }

    /** Move assignment under each policy. */
    method MoveAssign(to: nat, from: nat)
      requires Valid() && to in vecs && from in vecs
      modifies this
      ensures Valid() && from in vecs
      ensures to == from ==> Elements() == old(Elements())
      ensures to != from ==> Elements() == old(Elements())[to := old(Elements())[from]][from := Elements()[from]]
      ensures to != from ==> Spent(old(Elements())[from], Elements()[from])
      ensures to != from ==>
                Elements()[from] == if traits.MoveAssignmentPolicy().Memcpy? || old(vecs[from].IsAllocated()) then []
                                    else Husks(|old(Elements())[from]|)
      ensures next == old(next)
    {
      hide Sound, Model, Layout, Total;
      if to == from {
        return;
      }
      if traits.MoveAssignmentPolicy().Memcpy? || vecs[from].IsAllocated() {
        DestroyExistingAndAdopt(to, from);
      } else {
        MoveAssignInlined(to, from);
      }
    }

    /** The elementwise policies, from a vector that is not on the heap. */
    method MoveAssignInlined(to: nat, from: nat)
      requires Valid() && to in vecs && from in vecs && to != from && !vecs[from].IsAllocated()
      requires !traits.MoveAssignmentPolicy().Memcpy?
      modifies this
      ensures Valid() && from in vecs && next == old(next)
      ensures Elements() == old(Elements())[to := old(Elements())[from]][from := Husks(|old(Elements())[from]|)]
    {
      hide Sound, Model, Layout, Total, Empty;
      var src, n := View(from);
      var dst, size := View(to);
      Moving(Elements(), to, from, Husks(n));
      ghost var after;
      if traits.MoveAssignmentPolicy().Elementwise? {
        src, dst, after := MoveAssignInPlace(src, n, dst, size, ledger);
        Store(to, dst, n);
        Store(from, src, n);
      } else {
        var left;
        left, after := EndLifetimes(dst, size, ledger);
        Vacate(to, left);
        after := MoveInto(to, from, after);
      }
      Book(after, old(Elements())[to := old(Elements())[from]][from := Husks(n)]);
    }

    /** The old elements end, with or without destructor calls, and the storage of the other vector is taken
        over: the memcpy policy, and the elementwise policies from a vector on the heap. */
    method DestroyExistingAndAdopt(to: nat, from: nat)
      requires Valid() && to in vecs && from in vecs && to != from
      requires traits.MoveAssignmentPolicy().Memcpy? || vecs[from].IsAllocated()
      modifies this
      ensures Valid() && Elements() == old(Elements())[to := old(Elements())[from]][from := []]
      ensures next == old(next) && ledger == old(ledger).Ended(|old(Elements())[to]|)
    {
      hide Sound, Model, Layout, Total;
      Moving(Elements(), to, from, []);
      var dst, size := View(to);
      var left;
      ghost var after;
      left, after := EndLifetimes(dst, size, ledger);
      Vacate(to, left);
      Located(from);
      Adopt(to, from);
      Book(after, old(Elements())[to := old(Elements())[from]][from := []]);
    }

    // Element operations.

    /** insert of a range, or of copies of an element; such an element is copied out first. */
    method Insert(id: nat, index: nat, input: Input<T>) returns (at: nat)
      requires Valid() && id in vecs && index <= |Elements()[id]| && input.Readable(Elements()[id])
      modifies this
      ensures Valid() && at == index
      ensures Elements()
              == old(Elements())[id := InsertedAt(old(Elements())[id], index, input.All(old(Elements())[id]))]
      ensures var had, need := old(Capacity(id)), |old(Elements())[id]| + input.Count();
              Capacity(id) == if need <= had then had else if need <= 2 * had then 2 * had else need
    {
      hide Sound, Model, Layout, Total;
      TotalPut(Elements(), id, InsertedAt(Elements()[id], index, input.All(Elements()[id])));
      var buf, size := View(id);
      InputFromElements(buf, size, input);
      var added := input.All(buf);
      var n := |added|;
      at := index;
      if n == 0 {
        assert InsertedAt(Elements()[id], index, added) == Elements()[id];
        SameUpdate(Elements(), id);
        return;
      }
      ghost var after;
      if size + n > |buf| {
        var capacity := ComputeCapacity(|buf|, size + n);
        InsertedFront(buf, size, index, added, capacity);
        var left, r;
        left, r, after := InsertElsewhere(buf, size, index, Values(added), capacity, ledger);
        assert Values(added).All(buf) == added;
        Rehouse(id, left, r, size + n);
      } else {
        InsertedFront(buf, size, index, added, |buf|);
        var r;
        r, after := InsertInPlace(buf, size, index, added, ledger);
        Store(id, r, size + n);
      }
      Book(after, old(Elements())[id := InsertedAt(old(Elements())[id], index, added)]);
    }

    /** emplace_back; the value may be an element of the vector itself. */
    method EmplaceBack(id: nat, input: Input<T>)
      requires Valid() && id in vecs && input.Count() == 1 && input.Readable(Elements()[id])
      modifies this
      ensures Valid() && Elements() == old(Elements())[id := old(Elements())[id] + input.All(old(Elements())[id])]
      ensures var had := old(Capacity(id));
              Capacity(id) == if |old(Elements())[id]| < had then had else 2 * had
    {
      hide Sound, Model, Layout, Total;
      TotalPut(Elements(), id, Elements()[id] + input.All(Elements()[id]));
      var buf, size := View(id);
      InputFromElements(buf, size, input);
      var capacity := if size != |buf| then |buf| else 2 * |buf|;
      InsertedFront(buf, size, size, input.All(buf), capacity);
      assert InsertedAt(buf[..size], size, input.All(buf)) == buf[..size] + input.All(buf);
      ghost var after;
      if size != |buf| {
        var r;
        r, after := ConstructBehind(buf, size, input, ledger);
        Store(id, r, size + 1);
      } else {
        var left, r;
        left, r, after := InsertElsewhere(buf, size, size, input, capacity, ledger);
        Rehouse(id, left, r, size + 1);
      }
      Book(after, old(Elements())[id := old(Elements())[id] + input.All(old(Elements())[id])]);
    }

    method PopBack(id: nat)
      requires Valid() && id in vecs && 0 < |Elements()[id]|
      modifies this
      ensures Valid() && Elements() == old(Elements())[id := old(Elements())[id][..|old(Elements())[id]| - 1]]
      ensures Capacity(id) == old(Capacity(id))
    {
      hide Sound, Model, Layout, Total;
      TotalPut(Elements(), id, Elements()[id][..|Elements()[id]| - 1]);
      var buf, size := View(id);
      var r;
      ghost var after;
      r, after := DestroyLast(buf, size, ledger);
      Store(id, r, size - 1);
      Book(after, old(Elements())[id := old(Elements())[id][..size - 1]]);
    }

    method Erase(id: nat, from: nat, to: nat) returns (at: nat)
      requires Valid() && id in vecs && from <= to <= |Elements()[id]|
      modifies this
      ensures Valid() && at == from
      ensures Elements() == old(Elements())[id := old(Elements())[id][..from] + old(Elements())[id][to..]]
      ensures Capacity(id) == old(Capacity(id))
    {
      hide Sound, Model, Layout, Total;
      TotalPut(Elements(), id, Elements()[id][..from] + Elements()[id][to..]);
      at := from;
      var buf, size := View(id);
      ErasedFront(buf, size, from, to);
      if from != to {
        var r;
        ghost var after;
        r, after := EraseInPlace(buf, size, from, to, ledger);
        Store(id, r, size - (to - from));
        Book(after, old(Elements())[id := old(Elements())[id][..from] + old(Elements())[id][to..]]);
      }
    }

    method Clear(id: nat)
      requires Valid() && id in vecs
      modifies this
      ensures Valid() && Elements() == old(Elements())[id := []]
      ensures vecs[id].data.Inlined? && Capacity(id) == inlined
      ensures ledger == old(ledger).Ended(|old(Elements())[id]|)
    {
      hide Sound, Model, Layout, Total;
      TotalPut(Elements(), id, []);
      var buf, size := View(id);
      var left;
      ghost var after;
      left, after := EndLifetimes(buf, size, ledger);
      Vacate(id, left);
      Book(after, old(Elements())[id := []]);
    }

    method ShrinkToFit(id: nat)
      requires Valid() && id in vecs
      modifies this
      ensures Valid() && Elements() == old(Elements())
      ensures vecs[id].data.Allocated? <==> |Elements()[id]| > inlined
      ensures vecs[id].data.Allocated? ==> vecs[id].data.capacity == |Elements()[id]|
    {
      hide Sound, Model, Layout, Total;
      var buf, size := View(id);
      SameUpdate(Elements(), id);
      if vecs[id].IsAllocated() && size != |buf| {
        var left, r;
        ghost var after;
        left, r, after := Relocate(buf, size, Raws(if size > inlined then size else inlined), ledger);
        if size > inlined {
          Rehouse(id, left, r, size);
        } else {
          Vacate(id, left);
          Located(id);
          Store(id, r, size);
        }
        Book(after, old(Elements()));
      }
    }

    /** swap: two heap blocks, two inline buffers, or one of each. */
    method Swap(a: nat, b: nat)
      requires Valid() && a in vecs && b in vecs
      modifies this
      ensures Valid() && Elements() == old(Elements())[a := old(Elements())[b]][b := old(Elements())[a]]
      ensures next == old(next) && freed == old(freed)
      ensures Capacity(a) == old(Capacity(b)) && Capacity(b) == old(Capacity(a))
    {
      hide Sound, Model, Layout, Total;
      if a == b {
        SameUpdate(Elements(), a);
        return;
      }
      Swapping(Elements(), a, b);
      var x, m := View(a);
      var y, n := View(b);
      if vecs[a].IsAllocated() && vecs[b].IsAllocated() {
        Exchange(a, b);
      } else if vecs[a].IsAllocated() {
        SwapMixed(a, b);
      } else if vecs[b].IsAllocated() {
        SwapMixed(b, a);
        assert Elements() == old(Elements())[b := old(Elements())[a]][a := old(Elements())[b]];
      } else if traits.SwapInlinedElementsPolicy().Memcpy? {
        Exchange(a, b);
      } else {
        var p, q;
        ghost var after;
        p, q, after := SwapElements(x, m, y, n, traits.SwapInlinedElementsPolicy().ElementwiseConstruct?, ledger);
        Store(a, p, n);
        Store(b, q, m);
        Book(after, old(Elements())[a := old(Elements())[b]][b := old(Elements())[a]]);
      }
    }

    /** The inline elements are moved over and their old place takes the heap block. */
    method SwapMixed(heap: nat, flat: nat)
      requires Valid() && heap in vecs && flat in vecs && heap != flat
      requires vecs[heap].IsAllocated() && !vecs[flat].IsAllocated()
      modifies this
      ensures Valid() && Elements() == old(Elements())[heap := old(Elements())[flat]][flat := old(Elements())[heap]]
      ensures next == old(next) && freed == old(freed)
      ensures Capacity(heap) == inlined && Capacity(flat) == old(Capacity(heap))
    {
      hide Sound, Model, Layout, Total;
      Swapping(Elements(), heap, flat);
      Traded(Elements(), heap, flat);
      var _, _ := View(heap);
      var cells, n := View(flat);
      var left, r;
      ghost var after;
      left, r, after := Relocate(cells, n, Raws(inlined), ledger);
      RawLayout(left);
      Store(flat, left, 0);
      Located(heap);
      Adopt(flat, heap);
      Store(heap, r, n);
      Book(after, old(Elements())[heap := old(Elements())[flat]][flat := old(Elements())[heap]]);
    }

    /** assign from a single-pass range: overwrite, erase the rest, append what is left. */
    method AssignOnce(id: nat, values: seq<Cell<T>>)
      requires Valid() && id in vecs && ElementsIn(values, 0, |values|)
      modifies this
      ensures Valid() && Elements() == old(Elements())[id := values]
    {
      hide Sound, Model, Layout, Total;
      var size, i := Overwrite(id, values);
      var _ := Erase(id, i, size);
      AppendOnce(id, values, i);
    }

    /** The first loop: elements are assigned to until they or the values run out. */
    method Overwrite(id: nat, values: seq<Cell<T>>) returns (size: nat, i: nat)
      requires Valid() && id in vecs && ElementsIn(values, 0, |values|)
      modifies this
      ensures Valid() && id in vecs && Elements() == old(Elements())[id := Elements()[id]]
      ensures size == |Elements()[id]| && i <= size && i <= |values|
      ensures Elements()[id][..i] + Elements()[id][size..] == values[..i]
    {
      hide Sound, Model, Layout, Total;
      var buf;
      buf, size := View(id);
      var r;
      r, i := AssignFront(buf, size, values);
      TotalPut(Elements(), id, r[..size]);
      Store(id, r, size);
      Book(ledger, old(Elements())[id := r[..size]]);
      assert r[..size][..i] + r[..size][size..] == values[..i];
    }

    /** std::copy through a back inserter. */
    method AppendOnce(id: nat, values: seq<Cell<T>>, from: nat)
      requires Valid() && id in vecs && ElementsIn(values, 0, |values|)
      requires from <= |values| && Elements()[id] == values[..from]
      modifies this
      ensures Valid() && Elements() == old(Elements())[id := values]
    {
      hide Sound, Model, Layout, Total;
      SameUpdate(Elements(), id);
      for j := from to |values|
        invariant Valid() && id in vecs && Elements() == old(Elements())[id := values[..j]]
      {
        var one := Values([values[j]]);
        assert one.All(Elements()[id]) == [values[j]] && values[..j] + [values[j]] == values[..j + 1];
        EmplaceBack(id, one);
      }
      assert values[..|values|] == values;
    }

    /** insert from a single-pass range, one element at a time. */
    method InsertOnce(id: nat, index: nat, values: seq<Cell<T>>) returns (at: nat)
      requires Valid() && id in vecs && index <= |Elements()[id]| && ElementsIn(values, 0, |values|)
      modifies this
      ensures Valid() && at == index
      ensures Elements() == old(Elements())[id := InsertedAt(old(Elements())[id], index, values)]
    {
      hide Sound, Model, Layout, Total;
      at := index;
      ghost var s := Elements()[id];
      assert InsertedAt(s, index, values[..0]) == s;
      SameUpdate(Elements(), id);
      for i := 0 to |values|
        invariant Valid() && id in vecs && Elements() == old(Elements())[id := InsertedAt(s, index, values[..i])]
      {
        var one := Values([values[i]]);
        assert one.All(Elements()[id]) == [values[i]];
        InsertedNext(s, index, values, i);
        var _ := Insert(id, index + i, one);
      }
      assert values[..|values|] == values;
    }

    /** Carries out a step of a script. */
    method Apply(op: Op<T>)
      requires Valid() && Legal(Elements(), op)
      modifies this
      ensures Valid() && Next(old(Elements()), op, Elements())
    {
      hide Sound, Model, Layout, Total;
      match op
      case Construct(id, values) => Construct(id, values);
      case CopyConstruct(id, from) => CopyConstruct(id, from);
      case MoveConstruct(id, from) => MoveConstruct(id, from);
      case Assign(id, input) => Assign(id, input);
      case AssignOnce(id, values) => AssignOnce(id, values);
      case CopyAssign(to, from) => CopyAssign(to, from);
      case MoveAssign(to, from) => MoveAssign(to, from);
      case Insert(id, index, input) => var _ := Insert(id, index, input);
      case InsertOnce(id, index, values) => var _ := InsertOnce(id, index, values);
      case EmplaceBack(id, input) => EmplaceBack(id, input);
      case PopBack(id) => PopBack(id);
      case Erase(id, from, to) => var _ := Erase(id, from, to);
      case Clear(id) => Clear(id);
      case ShrinkToFit(id) => ShrinkToFit(id);
      case Swap(a, b) => Swap(a, b);
      case Destroy(id) => Destroy(id);
    }

    /** Carries out a script up to its first step that a caller may not take; `trace` holds the plain models. */
    method Run(script: seq<Op<T>>) returns (done: nat, ghost trace: seq<map<nat, seq<Cell<T>>>>)
      requires Valid()
      modifies this
      ensures Valid() && done <= |script| && Behaves(script[..done], trace)
      ensures trace[0] == old(Elements()) && trace[done] == Elements()
      ensures done < |script| ==> !Legal(Elements(), script[done])
      ensures vecs == map[] ==> blocks == map[] && forall p: nat :: multiset(freed)[p] == if p < next then 1 else 0
      ensures vecs == map[] ==> ledger.made == ledger.ended
    {
      hide Sound, Model, Layout, Next;
      done, trace := 0, [Elements()];
      while done < |script| && Legal(Snapshot(), script[done])
        invariant Valid() && done <= |script| && Behaves(script[..done], trace)
        invariant trace[0] == old(Elements()) && trace[done] == Elements()
      {
        Apply(script[done]);
        trace := trace + [Elements()];
        done := done + 1;
      }
      if vecs == map[] {
        NothingLeaks(Now(), inlined);
      }
    }
  }
}
