/** Byte-wise order of names, sorting by name and binary search by name. */
module NameOrder {

  /** operator< on string views. */
  predicate Less(a: string, b: string)
  {
    b != [] && (a == [] || a[0] < b[0] || (a[0] == b[0] && Less(a[1..], b[1..])))
  }

  predicate FirstDifference(a: string, b: string, i: int)
  {
    0 <= i < |a| && i < |b| && a[..i] == b[..i] && a[i] != b[i]
  }

  lemma SameStart(a: string, b: string, i: int)
    requires FirstDifference(a, b, i)
    ensures i > 0 ==> a[0] == b[0]
  {
    if i > 0 {
      assert a[..i][0] == a[0] && b[..i][0] == b[0];
    }
  }

  /** The order is that of the first difference; a proper prefix comes first. */
  lemma {:induction false} LessIff(a: string, b: string)
    ensures Less(a, b) <==> a < b || exists i :: FirstDifference(a, b, i) && a[i] < b[i]
    decreases |a|
  {
    if a != [] && b != [] {
      LessIff(a[1..], b[1..]);
      if a[0] == b[0] {
        assert a == [a[0]] + a[1..] && b == [b[0]] + b[1..];
        assert a < b <==> a[1..] < b[1..];
        forall i | FirstDifference(a[1..], b[1..], i)
          ensures FirstDifference(a, b, i + 1)
        {
          assert a[..i + 1] == [a[0]] + a[1..][..i] && b[..i + 1] == [b[0]] + b[1..][..i];
        }
        forall i | FirstDifference(a, b, i)
          ensures i > 0 && FirstDifference(a[1..], b[1..], i - 1)
        {
          assert a[1..][..i - 1] == a[..i][1..] && b[1..][..i - 1] == b[..i][1..];
        }
        if i :| FirstDifference(a, b, i) && a[i] < b[i] {
          assert FirstDifference(a[1..], b[1..], i - 1) && a[1..][i - 1] < b[1..][i - 1];
        }
        if i :| FirstDifference(a[1..], b[1..], i) && a[1..][i] < b[1..][i] {
          assert FirstDifference(a, b, i + 1) && a[i + 1] < b[i + 1];
        }
      } else {
        assert FirstDifference(a, b, 0);
        forall i | FirstDifference(a, b, i)
          ensures i > 0 ==> a[0] == b[0]
        {
          SameStart(a, b, i);
        }
      }
    }
  }

  lemma {:induction false} LessTotal(a: string, b: string)
    ensures Less(a, b) || a == b || Less(b, a)
    ensures !(Less(a, b) && Less(b, a)) && !Less(a, a)
    decreases |a|
  {
    if a != [] && b != [] {
      LessTotal(a[1..], b[1..]);
      LessTotal(a[1..], a[1..]);
      if a[0] == b[0] && a[1..] == b[1..] {
        assert a == [a[0]] + a[1..] && b == [b[0]] + b[1..];
      }
    } else if a != [] {
      LessTotal(a[1..], a[1..]);
    }
  }

  lemma {:induction false} LessTransitive(a: string, b: string, c: string)
    requires Less(a, b) && Less(b, c)
    ensures Less(a, c)
    decreases |a|
  {
    if a != [] && a[0] == b[0] && b[0] == c[0] {
      LessTransitive(a[1..], b[1..], c[1..]);
    }
  }

  /** No element is smaller than one before it. */
  ghost predicate SortedByName<T>(s: seq<T>, name: T -> string)
  {
    forall i, j :: 0 <= i < j < |s| ==> !Less(name(s[j]), name(s[i]))
  }

  /** Inserts `x` before the first element that is not smaller. */
  method Insert<T>(s: seq<T>, x: T, name: T -> string) returns (r: seq<T>)
    requires SortedByName(s, name)
    ensures SortedByName(r, name)
    ensures multiset(r) == multiset(s) + multiset{x}
  {
    var i := 0;
    while i < |s| && Less(name(s[i]), name(x))
      invariant 0 <= i <= |s|
      invariant forall j :: 0 <= j < i ==> Less(name(s[j]), name(x))
    {
      i := i + 1;
    }
    r := s[..i] + [x] + s[i..];
    assert s == s[..i] + s[i..];
    forall j | i <= j < |s|
      ensures !Less(name(s[j]), name(x))
    {
      if i < j && Less(name(s[j]), name(x)) {
        LessTotal(name(s[i]), name(s[j]));
        LessTotal(name(s[i]), name(x));
        if Less(name(s[i]), name(s[j])) {
          LessTransitive(name(s[i]), name(s[j]), name(x));
        }
      }
    }
    forall j | 0 <= j < i
      ensures !Less(name(x), name(s[j]))
    {
      LessTotal(name(s[j]), name(x));
    }
  }

  /** What std::sort promises with a comparison by name. */
  method Sort<T>(s: seq<T>, name: T -> string) returns (r: seq<T>)
    ensures SortedByName(r, name)
    ensures multiset(r) == multiset(s)
  {
    r := [];
    for i := 0 to |s|
      invariant SortedByName(r, name)
      invariant multiset(r) == multiset(s[..i])
    {
      r := Insert(r, s[i], name);
      assert s[..i + 1] == s[..i] + [s[i]];
    }
    assert s[..|s|] == s;
  }

  /** std::partition_point: the position where elements stop being smaller than `key`. */
  method PartitionPoint<T>(s: seq<T>, name: T -> string, key: string) returns (p: nat)
    requires SortedByName(s, name)
    ensures p <= |s|
    ensures forall i :: 0 <= i < p ==> Less(name(s[i]), key)
    ensures forall i :: p <= i < |s| ==> !Less(name(s[i]), key)
  {
    var lo, hi := 0, |s|;
    while lo < hi
      invariant 0 <= lo <= hi <= |s|
      invariant forall i :: 0 <= i < lo ==> Less(name(s[i]), key)
      invariant forall i :: hi <= i < |s| ==> !Less(name(s[i]), key)
    {
      var mid := (lo + hi) / 2;
      if Less(name(s[mid]), key) {
        forall i | 0 <= i < mid
          ensures Less(name(s[i]), key)
        {
          SmallerBefore(name(s[i]), name(s[mid]), key);
        }
        lo := mid + 1;
      } else {
        forall i | mid < i < |s|
          ensures !Less(name(s[i]), key)
        {
          if Less(name(s[i]), key) {
            SmallerBefore(name(s[mid]), name(s[i]), key);
          }
        }
        hi := mid;
      }
    }
    p := lo;
  }

  lemma SmallerBefore(a: string, b: string, key: string)
    requires !Less(b, a) && Less(b, key)
    ensures Less(a, key)
  {
    LessTotal(a, b);
    if a != b {
      LessTransitive(a, b, key);
    }
  }

  /** After the partition point, the first element carries the key or no element does. */
  lemma FoundAtPoint<T>(s: seq<T>, name: T -> string, key: string, p: nat)
    requires SortedByName(s, name) && p <= |s|
    requires forall i :: 0 <= i < p ==> Less(name(s[i]), key)
    requires forall i :: p <= i < |s| ==> !Less(name(s[i]), key)
    ensures (exists x :: x in s && name(x) == key) <==> p < |s| && name(s[p]) == key
  {
    if x :| x in s && name(x) == key {
      var i :| 0 <= i < |s| && s[i] == x;
      LessTotal(key, key);
      assert p <= i;
      LessTotal(name(s[p]), key);
    }
  }

  /** std::binary_search by name. */
  method BinarySearch<T>(s: seq<T>, name: T -> string, key: string) returns (found: bool)
    requires SortedByName(s, name)
    ensures found <==> exists x :: x in s && name(x) == key
  {
    var p := PartitionPoint(s, name, key);
    FoundAtPoint(s, name, key, p);
    found := p < |s| && !Less(key, name(s[p]));
    if p < |s| {
      LessTotal(key, name(s[p]));
    }
  }
}
