/** The storage of any number of inlined vectors that share one heap.

    Each vector stores its elements inline or in a heap block and packs its size with the bit that says
    which.  The heap is a map of live blocks with a log of the blocks already freed.  The lemmas say what
    each storage primitive does to the contents, and that no block loses its owner or gets a second one. */
module VectorWorld {
  import opened VectorCells

  /** The union: a pointer with a capacity, or the inline cells. */
  datatype Data<T> = Allocated(ptr: nat, capacity: nat) | Inlined(cells: seq<Cell<T>>)

  /** `meta` is the size shifted left by one, with the allocated bit in the low position. */
  datatype Storage<T> = Storage(meta: nat, data: Data<T>)
  {
    function Size(): nat
    {
      meta / 2
    }

    predicate IsAllocated()
    {
      meta % 2 == 1
    }

    /** The allocated bit agrees with the union, and a block is larger than the inline space. */
    predicate Placed(n: nat, blocks: map<nat, seq<Cell<T>>>)
    {
      if IsAllocated() then
        data.Allocated? && data.ptr in blocks && |blocks[data.ptr]| == data.capacity && n < data.capacity
      else
        data.Inlined? && |data.cells| == n
    }

    function Buffer(n: nat, blocks: map<nat, seq<Cell<T>>>): seq<Cell<T>>
      requires Placed(n, blocks)
    {
      if IsAllocated() then blocks[data.ptr] else data.cells
    }

    predicate Shaped(n: nat, blocks: map<nat, seq<Cell<T>>>)
    {
      Placed(n, blocks) && Layout(Buffer(n, blocks), Size())
    }

    function Contents(n: nat, blocks: map<nat, seq<Cell<T>>>): seq<Cell<T>>
      requires Shaped(n, blocks)
    {
      Buffer(n, blocks)[..Size()]
    }
  }

  function Empty<T>(n: nat): Storage<T>
  {
    Storage(0, Inlined(Raws(n)))
  }

  /** Every block handed out so far is either live or was freed exactly once. */
  ghost predicate Accounted(live: set<nat>, freed: seq<nat>, next: nat)
  {
    && (forall p: nat :: p in live || p in freed <==> p < next)
    && (forall p :: p in freed ==> p !in live)
    && (forall i, j :: 0 <= i < j < |freed| ==> freed[i] != freed[j])
  }

  /** Everything the vectors share; `owners` names the owner of each live block. */
  datatype World<T> = World(blocks: map<nat, seq<Cell<T>>>, vecs: map<nat, Storage<T>>, freed: seq<nat>, next: nat,
                            owners: map<nat, nat>)

  ghost predicate AllShaped<T>(w: World<T>, n: nat)
  {
    forall id :: id in w.vecs ==> w.vecs[id].Shaped(n, w.blocks)
  }

  /** Each allocated vector is the one owner of its block, and each live block has an owner. */
  ghost predicate Owned<T>(w: World<T>)
  {
    && w.owners.Keys == w.blocks.Keys
    && (forall id :: id in w.vecs && w.vecs[id].data.Allocated? ==>
          w.vecs[id].data.ptr in w.owners && w.owners[w.vecs[id].data.ptr] == id)
    && (forall p :: p in w.owners ==>
          w.owners[p] in w.vecs && w.vecs[w.owners[p]].data.Allocated? && w.vecs[w.owners[p]].data.ptr == p)
  }

  ghost predicate Sound<T>(w: World<T>, n: nat)
  {
    AllShaped(w, n) && Owned(w) && Accounted(w.blocks.Keys, w.freed, w.next)
  }

  /** The plain model: one sequence of elements for each vector. */
  ghost function Model<T>(w: World<T>, n: nat): (m: map<nat, seq<Cell<T>>>)
    requires AllShaped(w, n)
    ensures m.Keys == w.vecs.Keys
  {
    map id | id in w.vecs :: w.vecs[id].Contents(n, w.blocks)
  }

  // What the storage primitives do.

  ghost function Created<T>(w: World<T>, n: nat, id: nat): World<T>
  {
    w.(vecs := w.vecs[id := Empty(n)])
  }

  ghost function Removed<T>(w: World<T>, id: nat): World<T>
  {
    w.(vecs := w.vecs - {id})
  }

  ghost function Stored<T>(w: World<T>, id: nat, buf: seq<Cell<T>>, size: nat): World<T>
    requires id in w.vecs
  {
    var data := w.vecs[id].data;
    if data.Allocated? then
      w.(blocks := w.blocks[data.ptr := buf], vecs := w.vecs[id := Storage(2 * size + 1, data)])
    else
      w.(vecs := w.vecs[id := Storage(2 * size, Inlined(buf))])
  }

  ghost function Released<T>(w: World<T>, n: nat, id: nat): World<T>
    requires id in w.vecs
  {
    var emptied := w.(vecs := w.vecs[id := Empty(n)]);
    if w.vecs[id].data.Allocated? then
      var p := w.vecs[id].data.ptr;
      emptied.(blocks := w.blocks - {p}, freed := w.freed + [p], owners := w.owners - {p})
    else
      emptied
  }

  ghost function Housed<T>(w: World<T>, id: nat, buf: seq<Cell<T>>, size: nat): World<T>
  {
    w.(blocks := w.blocks[w.next := buf], vecs := w.vecs[id := Storage(2 * size + 1, Allocated(w.next, |buf|))],
       next := w.next + 1, owners := w.owners[w.next := id])
  }

  ghost function Adopted<T>(w: World<T>, n: nat, to: nat, from: nat): World<T>
    requires from in w.vecs
  {
    var data := w.vecs[from].data;
    w.(vecs := w.vecs[to := w.vecs[from]][from := Empty(n)],
       owners := if data.Allocated? then w.owners[data.ptr := to] else w.owners)
  }

  ghost function Exchanged<T>(w: World<T>, a: nat, b: nat): World<T>
    requires a in w.vecs && b in w.vecs
  {
    var one := if w.vecs[a].data.Allocated? then w.owners[w.vecs[a].data.ptr := b] else w.owners;
    w.(vecs := w.vecs[a := w.vecs[b]][b := w.vecs[a]],
       owners := if w.vecs[b].data.Allocated? then one[w.vecs[b].data.ptr := a] else one)
  }

  /** A vector whose storage and block did not change keeps its contents. */
  lemma Undisturbed<T>(s: Storage<T>, n: nat, blocks: map<nat, seq<Cell<T>>>, after: map<nat, seq<Cell<T>>>)
    requires s.Shaped(n, blocks)
    requires s.data.Allocated? ==> s.data.ptr in after && after[s.data.ptr] == blocks[s.data.ptr]
    ensures s.Shaped(n, after) && s.Contents(n, after) == s.Contents(n, blocks)
  {
  }

  /** A new storage holds the cells put into it. */
  lemma Filled<T>(n: nat, blocks: map<nat, seq<Cell<T>>>, data: Data<T>, buf: seq<Cell<T>>, size: nat)
    requires Layout(buf, size)
    requires if data.Allocated? then
               data.ptr in blocks && blocks[data.ptr] == buf && |buf| == data.capacity && n < |buf|
             else data.cells == buf && |buf| == n
    ensures var s := Storage(if data.Allocated? then 2 * size + 1 else 2 * size, data);
            s.Shaped(n, blocks) && s.Contents(n, blocks) == buf[..size]
  {
  }

  ghost predicate Holds<T>(w: World<T>, n: nat, id: nat, cells: seq<Cell<T>>)
    requires id in w.vecs
  {
    w.vecs[id].Shaped(n, w.blocks) && w.vecs[id].Contents(n, w.blocks) == cells
  }

  lemma ModelAt<T>(w: World<T>, n: nat, id: nat)
    requires AllShaped(w, n) && id in w.vecs
    ensures w.vecs[id].Shaped(n, w.blocks) && Model(w, n)[id] == w.vecs[id].Contents(n, w.blocks)
    ensures w.vecs[id].IsAllocated() <==> w.vecs[id].data.Allocated?
  {
  }

  lemma ModelIs<T>(w: World<T>, n: nat, m: map<nat, seq<Cell<T>>>)
    requires m.Keys == w.vecs.Keys
    requires forall id :: id in w.vecs ==> Holds(w, n, id, m[id])
    ensures AllShaped(w, n) && Model(w, n) == m
  {
    assert forall id :: id in w.vecs ==> Holds(w, n, id, m[id]);
  }

  /** The vectors other than `a` and `b` are as before. */
  ghost predicate Elsewhere<T>(w: World<T>, v: World<T>, a: nat, b: nat)
  {
    forall k :: k in v.vecs && k != a && k != b ==>
      && k in w.vecs && v.vecs[k] == w.vecs[k]
      && (w.vecs[k].data.Allocated? && w.vecs[k].data.ptr in w.blocks ==>
            w.vecs[k].data.ptr in v.blocks && v.blocks[w.vecs[k].data.ptr] == w.blocks[w.vecs[k].data.ptr])
  }

  lemma ModelChanged<T>(w: World<T>, v: World<T>, n: nat, a: nat, b: nat, m: map<nat, seq<Cell<T>>>)
    requires AllShaped(w, n) && Elsewhere(w, v, a, b) && m.Keys == v.vecs.Keys
    requires a in v.vecs ==> Holds(v, n, a, m[a])
    requires b in v.vecs ==> Holds(v, n, b, m[b])
    requires forall k :: k in v.vecs && k != a && k != b && k in w.vecs ==> m[k] == Model(w, n)[k]
    ensures AllShaped(v, n) && Model(v, n) == m
  {
    forall k | k in v.vecs
      ensures Holds(v, n, k, m[k])
    {
      if k != a && k != b {
        ModelAt(w, n, k);
        Undisturbed(w.vecs[k], n, w.blocks, v.blocks);
      }
    }
    ModelIs(v, n, m);
  }

  lemma CreatedModel<T>(w: World<T>, n: nat, id: nat)
    requires AllShaped(w, n) && id !in w.vecs
    ensures AllShaped(Created(w, n, id), n)
    ensures Model(Created(w, n, id), n) == Model(w, n)[id := []]
  {
    hide AllShaped, Model, Holds, Storage<T>.Shaped, Storage<T>.Contents;
    var v := Created(w, n, id);
    Filled<T>(n, v.blocks, Inlined(Raws(n)), Raws(n), 0);
    ModelChanged(w, v, n, id, id, Model(w, n)[id := []]);
  }

  lemma RemovedModel<T>(w: World<T>, n: nat, id: nat)
    requires AllShaped(w, n) && id in w.vecs
    ensures AllShaped(Removed(w, id), n)
    ensures Model(Removed(w, id), n) == Model(w, n) - {id}
  {
    hide AllShaped, Model, Holds, Storage<T>.Shaped, Storage<T>.Contents;
    ModelChanged(w, Removed(w, id), n, id, id, Model(w, n) - {id});
  }

  lemma StoredHolds<T>(w: World<T>, n: nat, id: nat, buf: seq<Cell<T>>, size: nat)
    requires id in w.vecs && w.vecs[id].Shaped(n, w.blocks)
    requires |buf| == |w.vecs[id].Buffer(n, w.blocks)| && Layout(buf, size)
    ensures Holds(Stored(w, id, buf, size), n, id, buf[..size])
  {
    var v := Stored(w, id, buf, size);
    Filled(n, v.blocks, v.vecs[id].data, buf, size);
  }

  lemma StoredModel<T>(w: World<T>, n: nat, id: nat, buf: seq<Cell<T>>, size: nat)
    requires AllShaped(w, n) && Owned(w) && id in w.vecs
    requires |buf| == |w.vecs[id].Buffer(n, w.blocks)| && Layout(buf, size)
    ensures AllShaped(Stored(w, id, buf, size), n)
    ensures Model(Stored(w, id, buf, size), n) == Model(w, n)[id := buf[..size]]
  {
    hide AllShaped, Model, Holds, Storage<T>.Shaped, Storage<T>.Contents;
    var v := Stored(w, id, buf, size);
    ModelAt(w, n, id);
    StoredHolds(w, n, id, buf, size);
    ModelChanged(w, v, n, id, id, Model(w, n)[id := buf[..size]]);
  }

  lemma ReleasedModel<T>(w: World<T>, n: nat, id: nat)
    requires AllShaped(w, n) && Owned(w) && id in w.vecs
    ensures AllShaped(Released(w, n, id), n)
    ensures Model(Released(w, n, id), n) == Model(w, n)[id := []]
  {
    hide AllShaped, Model, Holds, Storage<T>.Shaped, Storage<T>.Contents;
    var v := Released(w, n, id);
    Filled<T>(n, v.blocks, Inlined(Raws(n)), Raws(n), 0);
    ModelChanged(w, v, n, id, id, Model(w, n)[id := []]);
  }

  lemma HousedModel<T>(w: World<T>, n: nat, id: nat, buf: seq<Cell<T>>, size: nat)
    requires AllShaped(w, n) && id in w.vecs && n < |buf| && Layout(buf, size)
    requires w.next !in w.blocks
    ensures AllShaped(Housed(w, id, buf, size), n)
    ensures Model(Housed(w, id, buf, size), n) == Model(w, n)[id := buf[..size]]
  {
    hide AllShaped, Model, Holds, Storage<T>.Shaped, Storage<T>.Contents;
    var v := Housed(w, id, buf, size);
    Filled(n, v.blocks, v.vecs[id].data, buf, size);
    ModelChanged(w, v, n, id, id, Model(w, n)[id := buf[..size]]);
  }

  lemma AdoptedModel<T>(w: World<T>, n: nat, to: nat, from: nat)
    requires AllShaped(w, n) && to in w.vecs && from in w.vecs && to != from
    ensures AllShaped(Adopted(w, n, to, from), n)
    ensures Model(Adopted(w, n, to, from), n) == Model(w, n)[to := Model(w, n)[from]][from := []]
  {
    hide AllShaped, Model, Holds, Storage<T>.Shaped, Storage<T>.Contents;
    var v := Adopted(w, n, to, from);
    Filled<T>(n, v.blocks, Inlined(Raws(n)), Raws(n), 0);
    ModelAt(w, n, from);
    ModelChanged(w, v, n, to, from, Model(w, n)[to := Model(w, n)[from]][from := []]);
  }

  lemma ExchangedModel<T>(w: World<T>, n: nat, a: nat, b: nat)
    requires AllShaped(w, n) && a in w.vecs && b in w.vecs && a != b
    ensures AllShaped(Exchanged(w, a, b), n)
    ensures Model(Exchanged(w, a, b), n) == Model(w, n)[a := Model(w, n)[b]][b := Model(w, n)[a]]
  {
    hide AllShaped, Model, Holds, Storage<T>.Shaped, Storage<T>.Contents;
    var v := Exchanged(w, a, b);
    ModelAt(w, n, a);
    ModelAt(w, n, b);
    ModelChanged(w, v, n, a, b, Model(w, n)[a := Model(w, n)[b]][b := Model(w, n)[a]]);
  }

  lemma LiveBlock<T>(w: World<T>, id: nat)
    requires Owned(w) && id in w.vecs && w.vecs[id].data.Allocated?
    ensures w.vecs[id].data.ptr in w.blocks
  {
  }

  lemma StoredOwned<T>(w: World<T>, id: nat, buf: seq<Cell<T>>, size: nat)
    requires Owned(w) && id in w.vecs
    ensures Owned(Stored(w, id, buf, size)) && Stored(w, id, buf, size).blocks.Keys == w.blocks.Keys
  {
  }

  lemma ReleasedOwned<T>(w: World<T>, n: nat, id: nat)
    requires Owned(w) && id in w.vecs
    ensures Owned(Released(w, n, id))
  {
  }

  lemma HousedOwned<T>(w: World<T>, id: nat, buf: seq<Cell<T>>, size: nat)
    requires Owned(w) && id in w.vecs && w.vecs[id].data.Inlined? && w.next !in w.blocks
    ensures Owned(Housed(w, id, buf, size))
  {
  }

  lemma AdoptedOwned<T>(w: World<T>, n: nat, to: nat, from: nat)
    requires Owned(w) && to in w.vecs && from in w.vecs && to != from && w.vecs[to].data.Inlined?
    ensures Owned(Adopted(w, n, to, from))
  {
  }

  lemma ExchangedOwned<T>(w: World<T>, a: nat, b: nat)
    requires Owned(w) && a in w.vecs && b in w.vecs && a != b
    ensures Owned(Exchanged(w, a, b))
  {
  }

  lemma FreedOnce(live: set<nat>, freed: seq<nat>, next: nat, p: nat)
    requires Accounted(live, freed, next) && p in live
    ensures Accounted(live - {p}, freed + [p], next)
  {
  }

  lemma HandedOut(live: set<nat>, freed: seq<nat>, next: nat)
    requires Accounted(live, freed, next)
    ensures next !in live && Accounted(live + {next}, freed, next + 1)
  {
  }

  lemma CreatedSound<T>(w: World<T>, n: nat, id: nat)
    requires Sound(w, n) && id !in w.vecs
    ensures Sound(Created(w, n, id), n)
    ensures Model(Created(w, n, id), n) == Model(w, n)[id := []]
  {
    hide AllShaped, Model, Accounted;
    CreatedModel(w, n, id);
  }

  lemma RemovedSound<T>(w: World<T>, n: nat, id: nat)
    requires Sound(w, n) && id in w.vecs && w.vecs[id].data.Inlined?
    ensures Sound(Removed(w, id), n)
    ensures Model(Removed(w, id), n) == Model(w, n) - {id}
  {
    hide AllShaped, Model, Accounted;
    RemovedModel(w, n, id);
  }

  lemma StoredSound<T>(w: World<T>, n: nat, id: nat, buf: seq<Cell<T>>, size: nat)
    requires Sound(w, n) && id in w.vecs && w.vecs[id].Placed(n, w.blocks)
    requires |buf| == |w.vecs[id].Buffer(n, w.blocks)| && Layout(buf, size)
    ensures Sound(Stored(w, id, buf, size), n)
    ensures Model(Stored(w, id, buf, size), n) == Model(w, n)[id := buf[..size]]
  {
    hide AllShaped, Model, Accounted, Owned;
    StoredModel(w, n, id, buf, size);
    StoredOwned(w, id, buf, size);
  }

  lemma ReleasedSound<T>(w: World<T>, n: nat, id: nat)
    requires Sound(w, n) && id in w.vecs
    ensures Sound(Released(w, n, id), n)
    ensures Model(Released(w, n, id), n) == Model(w, n)[id := []]
  {
    hide AllShaped, Model, Accounted, Owned;
    ReleasedModel(w, n, id);
    ReleasedOwned(w, n, id);
    if w.vecs[id].data.Allocated? {
      LiveBlock(w, id);
      var p := w.vecs[id].data.ptr;
      FreedOnce(w.blocks.Keys, w.freed, w.next, p);
      assert (w.blocks - {p}).Keys == w.blocks.Keys - {p};
    }
  }

  lemma HousedSound<T>(w: World<T>, n: nat, id: nat, buf: seq<Cell<T>>, size: nat)
    requires Sound(w, n) && id in w.vecs && w.vecs[id].data.Inlined? && n < |buf| && Layout(buf, size)
    ensures Sound(Housed(w, id, buf, size), n)
    ensures Model(Housed(w, id, buf, size), n) == Model(w, n)[id := buf[..size]]
  {
    hide AllShaped, Model, Accounted, Owned;
    HandedOut(w.blocks.Keys, w.freed, w.next);
    HousedModel(w, n, id, buf, size);
    HousedOwned(w, id, buf, size);
    assert w.blocks[w.next := buf].Keys == w.blocks.Keys + {w.next};
  }

  lemma AdoptedSound<T>(w: World<T>, n: nat, to: nat, from: nat)
    requires Sound(w, n) && to in w.vecs && from in w.vecs && to != from && w.vecs[to].data.Inlined?
    ensures Sound(Adopted(w, n, to, from), n)
    ensures Model(Adopted(w, n, to, from), n) == Model(w, n)[to := Model(w, n)[from]][from := []]
  {
    hide AllShaped, Model, Accounted, Owned;
    AdoptedModel(w, n, to, from);
    AdoptedOwned(w, n, to, from);
  }

  lemma ExchangedSound<T>(w: World<T>, n: nat, a: nat, b: nat)
    requires Sound(w, n) && a in w.vecs && b in w.vecs && a != b
    ensures Sound(Exchanged(w, a, b), n)
    ensures Model(Exchanged(w, a, b), n) == Model(w, n)[a := Model(w, n)[b]][b := Model(w, n)[a]]
  {
    hide AllShaped, Model, Accounted, Owned;
    ExchangedModel(w, n, a, b);
    ExchangedOwned(w, a, b);
  }

  lemma {:induction false} Once(s: seq<nat>, p: nat)
    requires forall i, j :: 0 <= i < j < |s| ==> s[i] != s[j]
    ensures multiset(s)[p] == if p in s then 1 else 0
  {
    if s != [] {
      var last := |s| - 1;
      Once(s[..last], p);
      assert s == s[..last] + [s[last]];
    }
  }

  /** When the last vector is gone, every block ever handed out has been freed exactly once. */
  lemma NothingLeaks<T>(w: World<T>, n: nat)
    requires Sound(w, n) && w.vecs == map[]
    ensures w.blocks == map[]
    ensures forall p: nat :: multiset(w.freed)[p] == if p < w.next then 1 else 0
  {
    forall p: nat
      ensures multiset(w.freed)[p] == if p < w.next then 1 else 0
    {
      Once(w.freed, p);
    }
  }

  // Counting elements.

  /** The number of elements in all vectors, moved-from ones included. */
  ghost function Total<T>(m: map<nat, seq<Cell<T>>>): nat
  {
    if m == map[] then 0
    else
      var id :| id in m;
      |m[id]| + Total(m - {id})
  }

  lemma {:induction false} TotalTake<T>(m: map<nat, seq<Cell<T>>>, id: nat)
    requires id in m
    ensures Total(m) == |m[id]| + Total(m - {id})
    decreases |m|
  {
    var k: nat :| k in m && Total(m) == |m[k]| + Total(m - {k});
    if k != id {
      assert |m - {k}| < |m| && |m - {id}| < |m| by {
        assert (m - {k}).Keys == m.Keys - {k} && (m - {id}).Keys == m.Keys - {id};
      }
      TotalTake(m - {k}, id);
      TotalTake(m - {id}, k);
      assert m - {k} - {id} == m - {id} - {k};
    }
  }

  lemma TotalPut<T>(m: map<nat, seq<Cell<T>>>, id: nat, cells: seq<Cell<T>>)
    ensures Total(m[id := cells]) == Total(m) - (if id in m then |m[id]| else 0) + |cells|
  {
    TotalTake(m[id := cells], id);
    assert m[id := cells] - {id} == m - {id};
    if id in m {
      TotalTake(m, id);
    } else {
      assert m - {id} == m;
    }
  }
}
