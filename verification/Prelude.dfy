/** Result types, byte strings in Go's `bytes.Compare` order, and sorting by a byte key. */
module Prelude {

  datatype Option<+T> = None | Some(value: T)

  datatype Result<+T, +E> = Ok(value: T) | Err(error: E)
  {
    predicate IsFailure() { Err? }

    function PropagateFailure<U>(): Result<U, E>
      requires Err?
    {
      Err(error)
    }

    function Extract(): T
      requires Ok?
    {
      value
    }
  }

  type byte = x: int | 0 <= x < 256
  type Bytes = seq<byte>

  // The bytes of an ASCII text.
  function Ascii(text: string): (bytes: Bytes)
    ensures |bytes| == |text|
    ensures forall i :: 0 <= i < |text| && text[i] as int < 128 ==> bytes[i] == text[i] as int
  {
    seq(|text|, i requires 0 <= i < |text| => if text[i] as int < 128 then text[i] as int else 0)
  }

  // One more than the largest uint64.
  const TWO_64: int := 0x1_0000_0000_0000_0000

  // The elements of a sequence.
  function Elements<T>(s: seq<T>): set<T> {
    set x | x in s
  }

  predicate NoDuplicates<T(==)>(s: seq<T>) {
    forall i, j :: 0 <= i < j < |s| ==> s[i] != s[j]
  }

  // bytes.Compare(a, b) < 0; Go strings are compared the same way.
  predicate Less(a: Bytes, b: Bytes) {
    b != [] && (a == [] || a[0] < b[0] || (a[0] == b[0] && Less(a[1..], b[1..])))
  }

  lemma LessIrreflexive(a: Bytes)
    ensures !Less(a, a)
  {
  }

  lemma {:induction false} LessTransitive(a: Bytes, b: Bytes, c: Bytes)
    requires Less(a, b) && Less(b, c)
    ensures Less(a, c)
  {
    if a != [] && a[0] == b[0] == c[0] {
      LessTransitive(a[1..], b[1..], c[1..]);
    }
  }

  lemma {:induction false} LessTotal(a: Bytes, b: Bytes)
    ensures Less(a, b) || a == b || Less(b, a)
  {
    if a != [] && b != [] && a[0] == b[0] {
      LessTotal(a[1..], b[1..]);
      assert a == [a[0]] + a[1..] && b == [b[0]] + b[1..];
    }
  }

  // The strings agree up to `k`, where the first has the smaller byte.
  predicate DiffersAt(a: Bytes, b: Bytes, k: nat) {
    k < |a| && k < |b| && a[..k] == b[..k] && a[k] < b[k]
  }

  // A proper prefix comes first; otherwise the first bytes that differ decide.
  ghost predicate Precedes(a: Bytes, b: Bytes) {
    a < b || exists k: nat :: DiffersAt(a, b, k)
  }

  lemma DiffersShift(a: Bytes, b: Bytes, k: nat)
    requires a != [] && b != [] && a[0] == b[0]
    ensures DiffersAt(a, b, k + 1) <==> DiffersAt(a[1..], b[1..], k)
    ensures !DiffersAt(a, b, 0)
  {
    var x, y := a[1..], b[1..];
    if k < |x| && k < |y| {
      assert a[..k + 1] == [a[0]] + x[..k] && b[..k + 1] == [b[0]] + y[..k];
      assert x[..k] == a[..k + 1][1..] && y[..k] == b[..k + 1][1..];
    }
  }

  lemma DiffersFirst(a: Bytes, b: Bytes, k: nat)
    requires a != [] && b != [] && a[0] != b[0]
    ensures DiffersAt(a, b, k) <==> k == 0 && a[0] < b[0]
  {
    if 0 < k < |a| && k < |b| { assert a[..k][0] != b[..k][0]; }
  }

  lemma {:induction false} LessPrecedes(a: Bytes, b: Bytes)
    ensures Less(a, b) <==> Precedes(a, b)
  {
    hide DiffersAt;
    if a == [] || b == [] {
      ShortDiffers(a, b);
    } else {
      var x, y := a[1..], b[1..];
      assert a == [a[0]] + x && b == [b[0]] + y;
      LessPrecedes(x, y);
      if a[0] == b[0] {
        assert a < b <==> x < y;
        forall k: nat ensures DiffersAt(a, b, k + 1) <==> DiffersAt(x, y, k) { DiffersShift(a, b, k); }
        DiffersShift(a, b, 0);
        if k: nat :| DiffersAt(a, b, k) { assert DiffersAt(x, y, k - 1); }
        if k: nat :| DiffersAt(x, y, k) { assert DiffersAt(a, b, k + 1); }
      } else {
        forall k: nat ensures DiffersAt(a, b, k) <==> k == 0 && a[0] < b[0] { DiffersFirst(a, b, k); }
        assert DiffersAt(a, b, 0) <==> a[0] < b[0];
        NotPrefix(a, b);
      }
    }
  }

  lemma NotPrefix(a: Bytes, b: Bytes)
    requires a != [] && b != [] && a[0] != b[0]
    ensures !(a < b)
  {
  }

  lemma ShortDiffers(a: Bytes, b: Bytes)
    requires a == [] || b == []
    ensures forall k: nat :: !DiffersAt(a, b, k)
  {
  }

  // The order of bytes.Compare: a proper prefix is smaller, otherwise the first bytes that differ
  // decide.
  lemma LessExact(a: Bytes, b: Bytes)
    ensures Less(a, b) <==> a < b || exists k :: 0 <= k < |a| && k < |b| && a[..k] == b[..k] && a[k] < b[k]
    ensures Less(a, b) <==> Precedes(a, b)
  {
    hide Less;
    LessPrecedes(a, b);
    if k: nat :| DiffersAt(a, b, k) { assert a[..k] == b[..k] && a[k] < b[k]; }
    if k :| 0 <= k < |a| && k < |b| && a[..k] == b[..k] && a[k] < b[k] { assert DiffersAt(a, b, k); }
  }

  /* Sorting by a byte key. */

  // The key tells the elements of `s` apart.
  ghost predicate Distinguishes<T>(key: T -> Bytes, s: seq<T>) {
    forall x, y | x in s && y in s && key(x) == key(y) :: x == y
  }

  ghost predicate Sorted<T>(key: T -> Bytes, s: seq<T>) {
    forall i, j :: 0 <= i < j < |s| ==> !Less(key(s[j]), key(s[i]))
  }

  ghost predicate StrictlySorted<T>(key: T -> Bytes, s: seq<T>) {
    forall i, j :: 0 <= i < j < |s| ==> Less(key(s[i]), key(s[j]))
  }

  // Stable: `x` goes before the first element that is not smaller.
  function InsertBy<T>(key: T -> Bytes, x: T, s: seq<T>): seq<T> {
    if s == [] || !Less(key(s[0]), key(x)) then [x] + s
    else [s[0]] + InsertBy(key, x, s[1..])
  }

  // sort.SliceStable by the bytes of `key`.
  function SortBy<T>(key: T -> Bytes, s: seq<T>): seq<T> {
    if s == [] then [] else InsertBy(key, s[0], SortBy(key, s[1..]))
  }

  lemma {:induction false} InsertByPermutes<T>(key: T -> Bytes, x: T, s: seq<T>)
    ensures multiset(InsertBy(key, x, s)) == multiset{x} + multiset(s)
  {
    if s != [] {
      assert s == [s[0]] + s[1..];
      InsertByPermutes(key, x, s[1..]);
    }
  }

  lemma {:induction false} SortByPermutes<T>(key: T -> Bytes, s: seq<T>)
    ensures multiset(SortBy(key, s)) == multiset(s)
    ensures |SortBy(key, s)| == |s|
  {
    if s != [] {
      assert s == [s[0]] + s[1..];
      SortByPermutes(key, s[1..]);
      InsertByPermutes(key, s[0], SortBy(key, s[1..]));
    }
    assert |multiset(SortBy(key, s))| == |multiset(s)|;
  }

  lemma {:induction false} InsertBySorted<T>(key: T -> Bytes, x: T, s: seq<T>)
    requires Sorted(key, s)
    ensures Sorted(key, InsertBy(key, x, s))
  {
    if s == [] {
    } else if !Less(key(s[0]), key(x)) {
      forall j | 0 <= j < |s| ensures !Less(key(s[j]), key(x)) {
        if Less(key(s[j]), key(x)) {
          LessTotal(key(s[0]), key(s[j]));
          if Less(key(s[0]), key(s[j])) { LessTransitive(key(s[0]), key(s[j]), key(x)); }
        }
      }
    } else {
      InsertBySorted(key, x, s[1..]);
      var t := InsertBy(key, x, s[1..]);
      InsertByPermutes(key, x, s[1..]);
      forall j | 0 <= j < |t| ensures !Less(key(t[j]), key(s[0])) {
        assert t[j] in multiset(t);
        if t[j] == x {
          if Less(key(x), key(s[0])) { LessTransitive(key(s[0]), key(x), key(s[0])); }
          LessIrreflexive(key(s[0]));
        } else {
          assert t[j] in s[1..];
        }
      }
    }
  }

  lemma {:induction false} SortBySorted<T>(key: T -> Bytes, s: seq<T>)
    ensures Sorted(key, SortBy(key, s))
  {
    if s != [] {
      SortBySorted(key, s[1..]);
      InsertBySorted(key, s[0], SortBy(key, s[1..]));
    }
  }

  // A sorted sequence is determined by its elements.
  lemma {:induction false} SortedUnique<T>(key: T -> Bytes, a: seq<T>, b: seq<T>)
    requires Distinguishes(key, a) && Sorted(key, a) && Sorted(key, b)
    requires multiset(a) == multiset(b)
    ensures a == b
  {
    assert |multiset(a)| == |multiset(b)|;
    if a != [] {
      assert a[0] in multiset(b) && b[0] in multiset(a);
      LessTotal(key(a[0]), key(b[0]));
      assert a[0] == b[0];
      assert a == [a[0]] + a[1..] && b == [b[0]] + b[1..];
      assert multiset(a[1..]) == multiset(a) - multiset{a[0]};
      SortedUnique(key, a[1..], b[1..]);
    }
  }

  lemma StillDistinguishes<T>(key: T -> Bytes, a: seq<T>, b: seq<T>)
    requires Distinguishes(key, a) && multiset(a) == multiset(b)
    ensures Distinguishes(key, b)
  {
    forall x, y | x in b && y in b && key(x) == key(y) ensures x == y {
      assert x in multiset(a) && y in multiset(a);
    }
  }

  lemma SortByPermutation<T>(key: T -> Bytes, a: seq<T>, b: seq<T>)
    requires Distinguishes(key, a) && multiset(a) == multiset(b)
    ensures SortBy(key, a) == SortBy(key, b)
  {
    hide Distinguishes, Sorted, SortBy;
    SortByPermutes(key, a);
    SortByPermutes(key, b);
    SortBySorted(key, a);
    SortBySorted(key, b);
    StillDistinguishes(key, a, SortBy(key, a));
    SortedUnique(key, SortBy(key, a), SortBy(key, b));
  }

  lemma {:induction false} NoDuplicatesCount<T>(a: seq<T>, x: T)
    requires NoDuplicates(a)
    ensures multiset(a)[x] == if x in a then 1 else 0
  {
    if a != [] {
      assert a == [a[0]] + a[1..];
      NoDuplicatesCount(a[1..], x);
    }
  }

  lemma {:induction false} DistinctSize<T>(s: seq<T>)
    requires NoDuplicates(s)
    ensures |Elements(s)| == |s|
  {
    if s != [] {
      var rest := s[1..];
      assert s == [s[0]] + rest;
      assert Elements(s) == {s[0]} + Elements(rest) && s[0] !in rest;
      DistinctSize(rest);
    }
  }

  // Two duplicate-free sequences with the same elements are permutations of each other.
  lemma SameElementsPermute<T(!new)>(a: seq<T>, b: seq<T>)
    requires NoDuplicates(a) && NoDuplicates(b) && Elements(a) == Elements(b)
    ensures multiset(a) == multiset(b)
  {
    forall x ensures multiset(a)[x] == multiset(b)[x] {
      assert x in a <==> x in b by { assert x in Elements(a) <==> x in Elements(b); }
      NoDuplicatesCount(a, x);
      NoDuplicatesCount(b, x);
    }
  }

  // `s` without its element at `k`.
  function Without<T>(s: seq<T>, k: nat): (r: seq<T>)
    requires k < |s|
    ensures |r| == |s| - 1
    ensures forall i :: 0 <= i < |r| ==> r[i] == s[if i < k then i else i + 1]
  {
    s[..k] + s[k + 1..]
  }

  lemma WithoutMultiset<T>(s: seq<T>, k: nat)
    requires k < |s|
    ensures multiset(s) == multiset{s[k]} + multiset(Without(s, k))
  {
    assert s == s[..k] + [s[k]] + s[k + 1..];
  }

  lemma NoDuplicatesPermute<T>(a: seq<T>, b: seq<T>)
    requires NoDuplicates(a) && multiset(a) == multiset(b)
    ensures NoDuplicates(b)
  {
    forall i, j | 0 <= i < j < |b| ensures b[i] != b[j] {
      NoDuplicatesCount(a, b[j]);
      WithoutMultiset(b, j);
      assert Without(b, j)[i] == b[i];
      assert b[i] in multiset(Without(b, j));
    }
  }

  // Find the first element of `a` in a permutation `b` of it.
  lemma MultisetHead<T>(a: seq<T>, b: seq<T>) returns (k: nat)
    requires a != [] && multiset(a) == multiset(b)
    ensures k < |b| && b[k] == a[0]
    ensures multiset(a[1..]) == multiset(Without(b, k))
  {
    assert a[0] in multiset(b);
    k :| 0 <= k < |b| && b[k] == a[0];
    WithoutMultiset(b, k);
    assert a == [a[0]] + a[1..];
    assert multiset(a[1..]) == multiset(a) - multiset{a[0]};
  }

  /* Go maps. */

  // Strings sort by themselves.
  function Itself(k: Bytes): Bytes { k }

  // The keys of a Go map, sorted.
  method SortedKeys(keys: set<Bytes>) returns (sorted: seq<Bytes>)
    ensures StrictlySorted(Itself, sorted) && Elements(sorted) == keys
    ensures sorted == KeyOrder(keys)
  {
    var rest := keys;
    sorted := [];
    while rest != {}
      invariant rest !! Elements(sorted) && rest + Elements(sorted) == keys
      invariant NoDuplicates(sorted)
      decreases |rest|
    {
      var k :| k in rest;
      rest := rest - {k};
      assert Elements(sorted + [k]) == Elements(sorted) + {k};
      sorted := sorted + [k];
    }
    SortDistinct(sorted);
    sorted := SortBy(Itself, sorted);
    StrictlySortedSame(sorted, KeyOrder(keys));
  }

  lemma SortDistinct(a: seq<Bytes>)
    requires NoDuplicates(a)
    ensures StrictlySorted(Itself, SortBy(Itself, a)) && Elements(SortBy(Itself, a)) == Elements(a)
  {
    var b := SortBy(Itself, a);
    SortBySorted(Itself, a);
    SortByPermutes(Itself, a);
    assert forall x :: (x in b <==> x in multiset(b)) && (x in a <==> x in multiset(a));
    NoDuplicatesPermute(a, b);
    forall i, j | 0 <= i < j < |b| ensures Less(b[i], b[j]) {
      LessTotal(b[i], b[j]);
    }
  }

  lemma StrictIsSorted(s: seq<Bytes>)
    requires StrictlySorted(Itself, s)
    ensures Sorted(Itself, s) && NoDuplicates(s)
  {
    forall i, j | 0 <= i < j < |s| ensures !Less(Itself(s[j]), Itself(s[i])) && s[i] != s[j] {
      LessIrreflexive(s[i]);
      if Less(s[j], s[i]) { LessTransitive(s[i], s[j], s[i]); }
    }
  }

  // The elements decide a strictly sorted sequence.
  lemma StrictlySortedSame(a: seq<Bytes>, b: seq<Bytes>)
    requires StrictlySorted(Itself, a) && StrictlySorted(Itself, b) && Elements(a) == Elements(b)
    ensures a == b
  {
    StrictIsSorted(a);
    StrictIsSorted(b);
    SameElementsPermute(a, b);
    SortedUnique(Itself, a, b);
  }

  lemma {:induction false} SortedExists(keys: set<Bytes>)
    ensures exists s :: StrictlySorted(Itself, s) && Elements(s) == keys
  {
    if keys == {} {
      assert StrictlySorted(Itself, []) && Elements<Bytes>([]) == keys;
    } else {
      var k :| k in keys;
      SortedExists(keys - {k});
      var s :| StrictlySorted(Itself, s) && Elements(s) == keys - {k};
      StrictIsSorted(s);
      assert k !in Elements(s) && Elements([k] + s) == {k} + Elements(s);
      SortDistinct([k] + s);
    }
  }

  // The order in which the code goes through the keys of a map.
  ghost function KeyOrder(keys: set<Bytes>): (s: seq<Bytes>)
    ensures StrictlySorted(Itself, s) && Elements(s) == keys
  {
    SortedExists(keys);
    var s :| StrictlySorted(Itself, s) && Elements(s) == keys;
    s
  }
}
