/** Storage cells and the element loops of absl/container/internal/inlined_vector.h.

    A cell is raw memory, a live element, or an element that has been moved from and still has to be
    destroyed or assigned to.  Constructing needs raw memory; assigning, moving from and destroying
    need an element.  These preconditions are what the storage code has to get right. */
module VectorCells {

  datatype Cell<T> = Raw | Live(value: T) | Moved

  predicate RawIn<T>(buf: seq<Cell<T>>, from: nat, to: nat)
  {
    from <= to <= |buf| && forall k :: from <= k < to ==> buf[k].Raw?
  }

  predicate ElementsIn<T>(buf: seq<Cell<T>>, from: nat, to: nat)
  {
    from <= to <= |buf| && forall k :: from <= k < to ==> !buf[k].Raw?
  }

  /** Elements in front, raw memory behind them. */
  predicate Layout<T>(buf: seq<Cell<T>>, size: nat)
  {
    ElementsIn(buf, 0, size) && RawIn(buf, size, |buf|)
  }

  function Raws<T>(n: nat): (r: seq<Cell<T>>)
    ensures |r| == n
  {
    seq(n, _ => Raw)
  }

  /** What is left of elements after moving from them. */
  function Husks<T>(n: nat): (r: seq<Cell<T>>)
    ensures |r| == n
  {
    seq(n, _ => Moved)
  }

  /** How many elements have begun and how many have ended their life so far. */
  datatype Ledger = Ledger(made: nat, ended: nat)
  {
    function Made(n: nat): Ledger
    {
      Ledger(made + n, ended)
    }

    function Ended(n: nat): Ledger
    {
      Ledger(made, ended + n)
    }
  }

  /** The two buffers agree outside [from, to). */
  ghost predicate SameBut<T>(a: seq<Cell<T>>, b: seq<Cell<T>>, from: nat, to: nat)
  {
    |a| == |b| && forall k :: 0 <= k < |a| && !(from <= k < to) ==> a[k] == b[k]
  }

  /** Where new values come from: a range of elements outside the vector, or copies of one element of the
      vector itself (CopyValueAdapter keeps a pointer, which may point into the buffer being changed). */
  datatype Input<T> = Values(values: seq<Cell<T>>) | Copies(n: nat, at: nat)
  {
    function Count(): nat
    {
      if Values? then |values| else n
    }

    /** What the adapter reads are elements. */
    predicate Readable(buf: seq<Cell<T>>)
    {
      if Values? then ElementsIn(values, 0, |values|) else at < |buf| && !buf[at].Raw?
    }

    /** The value the adapter delivers next, read when it is needed. */
    function Fetch(buf: seq<Cell<T>>, i: nat): Cell<T>
      requires i < Count() && Readable(buf)
    {
      if Values? then values[i] else buf[at]
    }

    /** All values, as they are before the operation. */
    function All(buf: seq<Cell<T>>): (r: seq<Cell<T>>)
      requires Readable(buf)
      ensures |r| == Count()
      ensures match this
              case Values(values) => r == values
              case Copies(_, at) => forall i :: 0 <= i < |r| ==> r[i] == buf[at]
    {
      seq(Count(), i requires 0 <= i < Count() => Fetch(buf, i))
    }
  }

  /** ConstructElements, skipping the first `skip` values; `from` is the buffer the adapter reads. */
  method ConstructElements<T>(buf: seq<Cell<T>>, first: nat, n: nat, input: Input<T>, skip: nat, from: seq<Cell<T>>,
                              ghost ledger: Ledger)
    returns (r: seq<Cell<T>>, ghost after: Ledger)
    requires RawIn(buf, first, first + n)
    requires skip + n <= input.Count() && input.Readable(from)
    ensures SameBut(r, buf, first, first + n)
    ensures forall k :: first <= k < first + n ==> r[k] == input.All(from)[k - first + skip]
    ensures after == ledger.Made(n)
  {
    r, after := buf, ledger;
    for i := 0 to n
      invariant after == ledger.Made(i)
      invariant SameBut(r, buf, first, first + i)
      invariant forall k :: first <= k < first + i ==> r[k] == input.All(from)[k - first + skip]
    {
      assert r[first + i].Raw?;
      r := r[first + i := input.Fetch(from, skip + i)];
      after := after.Made(1);
    }
  }

  /** ConstructElements into memory that holds nothing yet. */
  method ConstructAll<T>(values: seq<Cell<T>>, buf: seq<Cell<T>>, ghost ledger: Ledger)
    returns (r: seq<Cell<T>>, ghost after: Ledger)
    requires |values| <= |buf| && RawIn(buf, 0, |buf|) && ElementsIn(values, 0, |values|)
    ensures |r| == |buf| && Layout(r, |values|) && r[..|values|] == values
    ensures after == ledger.Made(|values|)
  {
    r, after := ConstructElements(buf, 0, |values|, Values(values), 0, [], ledger);
  }

  /** memcpy of trivially copyable elements into memory that holds nothing yet; it begins their life. */
  method CopyBytes<T>(src: seq<Cell<T>>, n: nat, buf: seq<Cell<T>>, ghost ledger: Ledger)
    returns (r: seq<Cell<T>>, ghost after: Ledger)
    requires Layout(src, n) && RawIn(buf, 0, |buf|) && |src| == |buf|
    ensures r == src && after == ledger.Made(n)
  {
    r, after := src, ledger.Made(n);
  }

  /** What becomes of trivially destructible elements when their memory is given up. */
  method Forget<T>(buf: seq<Cell<T>>, size: nat, ghost ledger: Ledger) returns (r: seq<Cell<T>>, ghost after: Ledger)
    requires Layout(buf, size)
    ensures |r| == |buf| && RawIn(r, 0, |r|) && after == ledger.Ended(size)
  {
    r, after := Raws(|buf|), ledger.Ended(size);
  }

  /** AssignElements; an adapter that points into the buffer reads it while it is being assigned to. */
  method AssignElements<T>(buf: seq<Cell<T>>, first: nat, n: nat, input: Input<T>) returns (r: seq<Cell<T>>)
    requires ElementsIn(buf, first, first + n) && n <= input.Count()
    requires input.Readable(buf)
    ensures SameBut(r, buf, first, first + n)
    ensures forall k :: first <= k < first + n ==> r[k] == input.All(buf)[k - first]
  {
    r := buf;
    for i := 0 to n
      invariant SameBut(r, buf, first, first + i)
      invariant input.Copies? ==> r[input.at] == buf[input.at]
      invariant forall k :: first <= k < first + i ==> r[k] == input.All(buf)[k - first]
    {
      r := r[first + i := input.Fetch(r, i)];
    }
  }

  /** DestroyElements, last element first. */
  method DestroyElements<T>(buf: seq<Cell<T>>, first: nat, n: nat, ghost ledger: Ledger)
    returns (r: seq<Cell<T>>, ghost after: Ledger)
    requires ElementsIn(buf, first, first + n)
    ensures SameBut(r, buf, first, first + n) && RawIn(r, first, first + n)
    ensures after == ledger.Ended(n)
  {
    r, after := buf, ledger;
    var i := n;
    while i != 0
      invariant 0 <= i <= n && after == ledger.Ended(n - i)
      invariant SameBut(r, buf, first + i, first + n) && RawIn(r, first + i, first + n)
    {
      i := i - 1;
      assert !r[first + i].Raw?;
      r := r[first + i := Raw];
      after := after.Ended(1);
    }
  }

  /** ConstructElements through a move iterator, from one buffer into another. */
  method MoveElements<T>(src: seq<Cell<T>>, from: nat, dst: seq<Cell<T>>, to: nat, n: nat, ghost ledger: Ledger)
    returns (s: seq<Cell<T>>, d: seq<Cell<T>>, ghost after: Ledger)
    requires ElementsIn(src, from, from + n) && RawIn(dst, to, to + n)
    ensures SameBut(s, src, from, from + n) && SameBut(d, dst, to, to + n)
    ensures forall k :: from <= k < from + n ==> s[k] == Moved
    ensures forall k :: to <= k < to + n ==> d[k] == src[k - to + from]
    ensures after == ledger.Made(n)
  {
    s, d, after := src, dst, ledger;
    for i := 0 to n
      invariant after == ledger.Made(i)
      invariant SameBut(s, src, from, from + i) && SameBut(d, dst, to, to + i)
      invariant forall k :: from <= k < from + i ==> s[k] == Moved
      invariant forall k :: to <= k < to + i ==> d[k] == src[k - to + from]
    {
      assert d[to + i].Raw?;
      d := d[to + i := s[from + i]];
      s := s[from + i := Moved];
      after := after.Made(1);
    }
  }

  /** AssignElements through a move iterator, from one buffer into another. */
  method MoveAssignElements<T>(src: seq<Cell<T>>, dst: seq<Cell<T>>, n: nat) returns (s: seq<Cell<T>>, d: seq<Cell<T>>)
    requires ElementsIn(src, 0, n) && ElementsIn(dst, 0, n)
    ensures SameBut(s, src, 0, n) && SameBut(d, dst, 0, n)
    ensures forall k :: 0 <= k < n ==> s[k] == Moved
    ensures forall k :: 0 <= k < n ==> d[k] == src[k]
  {
    s, d := src, dst;
    for i := 0 to n
      invariant SameBut(s, src, 0, i) && SameBut(d, dst, 0, i)
      invariant forall k :: 0 <= k < i ==> s[k] == Moved
      invariant forall k :: 0 <= k < i ==> d[k] == src[k]
    {
      d := d[i := s[i]];
      s := s[i := Moved];
    }
  }

  /** Move-constructs cells of one buffer into raw cells further up that do not overlap them. */
  method MoveUp<T>(buf: seq<Cell<T>>, from: nat, to: nat, n: nat, ghost ledger: Ledger)
    returns (r: seq<Cell<T>>, ghost after: Ledger)
    requires from + n <= to
    requires ElementsIn(buf, from, from + n) && RawIn(buf, to, to + n)
    ensures |r| == |buf|
    ensures forall k :: to <= k < to + n ==> r[k] == buf[k - to + from]
    ensures forall k :: from <= k < from + n ==> r[k] == Moved
    ensures forall k :: 0 <= k < |buf| && !(to <= k < to + n) && !(from <= k < from + n) ==> r[k] == buf[k]
    ensures after == ledger.Made(n)
  {
    r, after := buf, ledger;
    for i := 0 to n
      invariant |r| == |buf| && after == ledger.Made(i)
      invariant forall k :: to <= k < to + i ==> r[k] == buf[k - to + from]
      invariant forall k :: from <= k < from + i ==> r[k] == Moved
      invariant forall k :: 0 <= k < |buf| && !(to <= k < to + i) && !(from <= k < from + i) ==> r[k] == buf[k]
    {
      r := r[to + i := r[from + i]];
      r := r[from + i := Moved];
      after := after.Made(1);
    }
  }

  /** Assigns the elements in [from, from + n) up by `count` places, last element first. */
  method AssignBackward<T>(buf: seq<Cell<T>>, from: nat, count: nat, n: nat) returns (r: seq<Cell<T>>)
    requires 0 < count && ElementsIn(buf, from, from + count + n)
    ensures ElementsIn(r, from, from + count)
    ensures SameBut(r, buf, from, from + count + n)
    ensures forall k :: from + count <= k < from + count + n ==> r[k] == buf[k - count]
  {
    r := buf;
    var d := n;
    while d > 0
      invariant 0 <= d <= n && |r| == |buf|
      invariant ElementsIn(r, from + d, from + d + count)
      invariant SameBut(r, buf, from + d, from + count + n)
      invariant forall k :: from + d + count <= k < from + count + n ==> r[k] == buf[k - count]
    {
      d := d - 1;
      r := r[from + d + count := r[from + d]];
      r := r[from + d := Moved];
    }
  }

  /** Opens a gap: elements that end behind the old size are constructed there, then the others are
      assigned upwards.  `overlap` cells of the gap still hold elements. */
  method OpenGap<T>(buf: seq<Cell<T>>, size: nat, index: nat, count: nat, ghost ledger: Ledger)
    returns (r: seq<Cell<T>>, overlap: nat, ghost after: Ledger)
    requires Layout(buf, size) && index <= size && size + count <= |buf| && 0 < count
    ensures overlap <= count
    ensures SameBut(r, buf, index, size + count)
    ensures forall k :: index + count <= k < size + count ==> r[k] == buf[k - count]
    ensures ElementsIn(r, index, index + overlap) && RawIn(r, index + overlap, index + count)
    ensures after == ledger.Made(overlap)
  {
    var newSize, end := size + count, index + count;
    var dest := if end > size then end else size;
    overlap := newSize - dest;
    r, after := MoveUp(buf, dest - count, dest, overlap, ledger);
    if dest > end {
      r := AssignBackward(r, index, count, size - end);
    }
  }

  /** The elements of a buffer after an insertion, raw memory behind them. */
  function Inserted<T>(buf: seq<Cell<T>>, size: nat, index: nat, added: seq<Cell<T>>, capacity: nat): (r: seq<Cell<T>>)
    requires index <= size <= |buf| && size + |added| <= capacity
    ensures |r| == capacity
  {
    buf[..index] + added + buf[index..size] + Raws(capacity - size - |added|)
  }

  /** Storage::Insert when the new elements fit. */
  method InsertInPlace<T>(buf: seq<Cell<T>>, size: nat, index: nat, added: seq<Cell<T>>, ghost ledger: Ledger)
    returns (r: seq<Cell<T>>, ghost after: Ledger)
    requires Layout(buf, size) && index <= size && size + |added| <= |buf|
    requires ElementsIn(added, 0, |added|) && added != []
    ensures r == Inserted(buf, size, index, added, |buf|) && after == ledger.Made(|added|)
  {
    var overlap;
    r, overlap, after := OpenGap(buf, size, index, |added|, ledger);
    r := AssignElements(r, index, overlap, Values(added));
    r, after := ConstructElements(r, index + overlap, |added| - overlap, Values(added), overlap, r, after);
  }

  /** Storage::Insert into a new block: the new elements first, then the old ones moved around them.
      EmplaceBackSlow is the case of one value at the end; there it may be read from the old buffer, which
      is only correct because it is constructed before anything is moved. */
  method InsertElsewhere<T>(buf: seq<Cell<T>>, size: nat, index: nat, input: Input<T>, capacity: nat,
                            ghost ledger: Ledger)
    returns (left: seq<Cell<T>>, r: seq<Cell<T>>, ghost after: Ledger)
    requires Layout(buf, size) && index <= size && size + input.Count() <= capacity && input.Readable(buf)
    ensures r == Inserted(buf, size, index, input.All(buf), capacity)
    ensures |left| == |buf| && RawIn(left, 0, |left|)
    ensures after == ledger.Made(input.Count() + size).Ended(size)
  {
    var count := input.Count();
    r, after := ConstructElements(Raws(capacity), index, count, input, 0, buf, ledger);
    ghost var added := r;
    left, r, after := MoveAround(buf, size, index, r, count, after);
    assert added[index..index + count] == input.All(buf);
    assert r == r[..index] + r[index..index + count] + r[index + count..size + count] + r[size + count..];
    left, after := DestroyElements(left, 0, size, after);
  }

  /** Moves the elements in front of `index` and those behind it to both sides of a gap. */
  method MoveAround<T>(buf: seq<Cell<T>>, size: nat, index: nat, dst: seq<Cell<T>>, count: nat, ghost ledger: Ledger)
    returns (left: seq<Cell<T>>, r: seq<Cell<T>>, ghost after: Ledger)
    requires Layout(buf, size) && index <= size && size + count <= |dst|
    requires RawIn(dst, 0, index) && RawIn(dst, index + count, |dst|)
    ensures |left| == |buf| && ElementsIn(left, 0, size) && RawIn(left, size, |left|)
    ensures |r| == |dst| && r[..index] == buf[..index] && r[index..index + count] == dst[index..index + count]
    ensures r[index + count..size + count] == buf[index..size] && RawIn(r, size + count, |r|)
    ensures after == ledger.Made(size)
  {
    left, r, after := MoveElements(buf, 0, dst, 0, index, ledger);
    left, r, after := MoveElements(left, index, r, index + count, size - index, after);
  }

  /** Storage::Erase: the elements behind are assigned down, the left-over cells destroyed. */
  method EraseInPlace<T>(buf: seq<Cell<T>>, size: nat, from: nat, to: nat, ghost ledger: Ledger)
    returns (r: seq<Cell<T>>, ghost after: Ledger)
    requires Layout(buf, size) && from < to <= size
    ensures |r| == |buf| && Layout(r, size - (to - from)) && r[..size - (to - from)] == buf[..from] + buf[to..size]
    ensures after == ledger.Ended(to - from)
  {
    var count := to - from;
    r := buf;
    for i := 0 to size - to
      invariant SameBut(r, buf, from, to + i)
      invariant forall k :: from <= k < from + i ==> r[k] == buf[k + count]
      invariant ElementsIn(r, from + i, to + i)
    {
      r := r[from + i := r[to + i]];
      r := r[to + i := Moved];
    }
    r, after := DestroyElements(r, size - count, count, ledger);
  }

  /** Storage::Assign when the values fit. */
  method AssignInPlace<T>(buf: seq<Cell<T>>, size: nat, input: Input<T>, ghost ledger: Ledger)
    returns (r: seq<Cell<T>>, ghost after: Ledger)
    requires Layout(buf, size) && input.Count() <= |buf| && input.Readable(buf)
    ensures |r| == |buf| && Layout(r, input.Count()) && r[..input.Count()] == input.All(buf)
    ensures after == if input.Count() > size then ledger.Made(input.Count() - size)
                     else ledger.Ended(size - input.Count())
  {
    var n := input.Count();
    if n > size {
      r := AssignElements(buf, 0, size, input);
      r, after := ConstructElements(r, size, n - size, input, size, r, ledger);
    } else {
      r := AssignElements(buf, 0, n, input);
      r, after := DestroyElements(r, n, size - n, ledger);
    }
  }

  /** Storage::Assign into a new block. */
  method AssignElsewhere<T>(buf: seq<Cell<T>>, size: nat, input: Input<T>, capacity: nat, ghost ledger: Ledger)
    returns (left: seq<Cell<T>>, r: seq<Cell<T>>, ghost after: Ledger)
    requires Layout(buf, size) && input.Count() <= capacity && input.Readable(buf)
    ensures |r| == capacity && Layout(r, input.Count()) && r[..input.Count()] == input.All(buf)
    ensures |left| == |buf| && RawIn(left, 0, |left|)
    ensures after == ledger.Made(input.Count()).Ended(size)
  {
    r, after := ConstructElements(Raws(capacity), 0, input.Count(), input, 0, buf, ledger);
    left, after := DestroyElements(buf, 0, size, after);
  }

  /** Moves all elements into other raw memory and destroys what is left of them. */
  method Relocate<T>(buf: seq<Cell<T>>, size: nat, dst: seq<Cell<T>>, ghost ledger: Ledger)
    returns (left: seq<Cell<T>>, r: seq<Cell<T>>, ghost after: Ledger)
    requires Layout(buf, size) && size <= |dst| && RawIn(dst, 0, |dst|)
    ensures |r| == |dst| && Layout(r, size) && r[..size] == buf[..size]
    ensures |left| == |buf| && RawIn(left, 0, |left|)
    ensures after == ledger.Made(size).Ended(size)
  {
    left, r, after := MoveElements(buf, 0, dst, 0, size, ledger);
    left, after := DestroyElements(left, 0, size, after);
  }

  /** Storage::Assign from a move iterator over the elements of another buffer, when they fit. */
  method MoveAssignInPlace<T>(src: seq<Cell<T>>, n: nat, dst: seq<Cell<T>>, size: nat, ghost ledger: Ledger)
    returns (s: seq<Cell<T>>, d: seq<Cell<T>>, ghost after: Ledger)
    requires Layout(src, n) && Layout(dst, size) && n <= |dst|
    ensures |s| == |src| && Layout(s, n) && s[..n] == Husks(n)
    ensures |d| == |dst| && Layout(d, n) && d[..n] == src[..n]
    ensures after == if n > size then ledger.Made(n - size) else ledger.Ended(size - n)
  {
    if n > size {
      s, d := MoveAssignElements(src, dst, size);
      s, d, after := MoveElements(s, size, d, size, n - size, ledger);
    } else {
      s, d := MoveAssignElements(src, dst, n);
      d, after := DestroyElements(d, n, size - n, ledger);
    }
  }

  /** One turn of SwapN under the constructing policy: a temporary, and each cell destroyed and constructed
      again. */
  method SwapByConstruction<T>(a: seq<Cell<T>>, b: seq<Cell<T>>, i: nat, ghost ledger: Ledger)
    returns (x: seq<Cell<T>>, y: seq<Cell<T>>, ghost after: Ledger)
    requires i < |a| && i < |b| && !a[i].Raw? && !b[i].Raw?
    ensures x == a[i := b[i]] && y == b[i := a[i]]
    ensures after == ledger.Made(3).Ended(3)
  {
    var tmp := [Raw];
    x, tmp, after := MoveElements(a, i, tmp, 0, 1, ledger);
    x, after := DestroyElements(x, i, 1, after);
    y, x, after := MoveElements(b, i, x, i, 1, after);
    y, after := DestroyElements(y, i, 1, after);
    tmp, y, after := MoveElements(tmp, 0, y, i, 1, after);
    tmp, after := DestroyElements(tmp, 0, 1, after);
  }

  /** SwapN: std::swap_ranges, or through a temporary with each cell destroyed and constructed again. */
  method SwapN<T>(a: seq<Cell<T>>, b: seq<Cell<T>>, n: nat, construct: bool, ghost ledger: Ledger)
    returns (x: seq<Cell<T>>, y: seq<Cell<T>>, ghost after: Ledger)
    requires ElementsIn(a, 0, n) && ElementsIn(b, 0, n)
    ensures SameBut(x, a, 0, n) && SameBut(y, b, 0, n)
    ensures forall k :: 0 <= k < n ==> x[k] == b[k]
    ensures forall k :: 0 <= k < n ==> y[k] == a[k]
    ensures after == if construct then ledger.Made(3 * n).Ended(3 * n) else ledger
  {
    x, y, after := a, b, ledger;
    for i := 0 to n
      invariant after == if construct then ledger.Made(3 * i).Ended(3 * i) else ledger
      invariant SameBut(x, a, 0, i) && SameBut(y, b, 0, i)
      invariant forall k :: 0 <= k < i ==> x[k] == b[k]
      invariant forall k :: 0 <= k < i ==> y[k] == a[k]
    {
      if construct {
        x, y, after := SwapByConstruction(x, y, i, after);
      } else {
        x, y := x[i := y[i]], y[i := x[i]];
      }
    }
  }

  /** SwapInlinedElements without memcpy: the common part is swapped, the rest of the larger one moved. */
  method SwapElements<T>(a: seq<Cell<T>>, m: nat, b: seq<Cell<T>>, n: nat, construct: bool, ghost ledger: Ledger)
    returns (x: seq<Cell<T>>, y: seq<Cell<T>>, ghost after: Ledger)
    requires Layout(a, m) && Layout(b, n) && |a| == |b|
    ensures x == b && y == a
    ensures after.made - after.ended == ledger.made - ledger.ended
  {
    var small := if m > n then n else m;
    x, y, after := SwapN(a, b, small, construct, ledger);
    if m > n {
      x, y, after := MoveElements(x, small, y, small, m - small, after);
      x, after := DestroyElements(x, small, m - small, after);
    } else {
      y, x, after := MoveElements(y, small, x, small, n - small, after);
      y, after := DestroyElements(y, small, n - small, after);
    }
  }

  /** A filled buffer is laid out and its elements are the ones put in front. */
  lemma FrontLayout<T>(front: seq<Cell<T>>, n: nat)
    requires ElementsIn(front, 0, |front|)
    ensures Layout(front + Raws(n), |front|) && (front + Raws(n))[..|front|] == front
  {
  }

  lemma InsertedFront<T>(buf: seq<Cell<T>>, size: nat, index: nat, added: seq<Cell<T>>, capacity: nat)
    requires Layout(buf, size) && index <= size && size + |added| <= capacity && ElementsIn(added, 0, |added|)
    ensures Layout(Inserted(buf, size, index, added, capacity), size + |added|)
    ensures Inserted(buf, size, index, added, capacity)[..size + |added|]
            == buf[..size][..index] + added + buf[..size][index..]
  {
    var front := buf[..index] + added + buf[index..size];
    FrontLayout(front, capacity - size - |added|);
    assert buf[..size][..index] == buf[..index] && buf[..size][index..] == buf[index..size];
  }

  /** The adapter reads the same values from the elements as from the whole buffer. */
  lemma InputFromElements<T>(buf: seq<Cell<T>>, size: nat, input: Input<T>)
    requires Layout(buf, size) && input.Readable(buf[..size])
    ensures input.Readable(buf) && input.All(buf) == input.All(buf[..size])
    ensures ElementsIn(input.All(buf), 0, input.Count())
  {
  }

  lemma LayoutElements<T>(buf: seq<Cell<T>>, size: nat)
    requires Layout(buf, size)
    ensures size <= |buf| && ElementsIn(buf[..size], 0, size)
  {
  }

  /** Move-constructs all elements into memory that holds nothing yet; the husks stay behind. */
  method MoveAll<T>(src: seq<Cell<T>>, n: nat, dst: seq<Cell<T>>, ghost ledger: Ledger)
    returns (s: seq<Cell<T>>, d: seq<Cell<T>>, ghost after: Ledger)
    requires Layout(src, n) && n <= |dst| && RawIn(dst, 0, |dst|)
    ensures |s| == |src| && Layout(s, n) && s[..n] == Husks(n)
    ensures |d| == |dst| && Layout(d, n) && d[..n] == src[..n]
    ensures after == ledger.Made(n)
  {
    s, d, after := MoveElements(src, 0, dst, 0, n, ledger);
  }

  /** EmplaceBack when there is room. */
  method ConstructBehind<T>(buf: seq<Cell<T>>, size: nat, input: Input<T>, ghost ledger: Ledger)
    returns (r: seq<Cell<T>>, ghost after: Ledger)
    requires Layout(buf, size) && size < |buf| && input.Count() == 1 && input.Readable(buf)
    ensures r == Inserted(buf, size, size, input.All(buf), |buf|) && after == ledger.Made(1)
  {
    r, after := ConstructElements(buf, size, 1, input, 0, buf, ledger);
  }

  method DestroyLast<T>(buf: seq<Cell<T>>, size: nat, ghost ledger: Ledger)
    returns (r: seq<Cell<T>>, ghost after: Ledger)
    requires Layout(buf, size) && 0 < size
    ensures |r| == |buf| && Layout(r, size - 1) && r[..size - 1] == buf[..size][..size - 1]
    ensures after == ledger.Ended(1)
  {
    r, after := DestroyElements(buf, size - 1, 1, ledger);
  }

  lemma ErasedFront<T>(buf: seq<Cell<T>>, size: nat, from: nat, to: nat)
    requires from <= to <= size <= |buf|
    ensures buf[..from] + buf[to..size] == buf[..size][..from] + buf[..size][to..]
    ensures from == to ==> buf[..from] + buf[to..size] == buf[..size]
  {
  }

  lemma RawLayout<T>(buf: seq<Cell<T>>)
    requires RawIn(buf, 0, |buf|)
    ensures Layout(buf, 0) && buf[..0] == []
  {
  }

  /** Assigns to the first elements until either the elements or the values run out. */
  method AssignFront<T>(buf: seq<Cell<T>>, size: nat, values: seq<Cell<T>>) returns (r: seq<Cell<T>>, n: nat)
    requires Layout(buf, size) && ElementsIn(values, 0, |values|)
    ensures n == if size < |values| then size else |values|
    ensures |r| == |buf| && Layout(r, size) && r[..size][..n] == values[..n]
  {
    n := if size < |values| then size else |values|;
    r := AssignElements(buf, 0, n, Values(values));
  }
}
