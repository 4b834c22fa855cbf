/** Array utilities of the ML-KEM core: element-wise `map` and `zip`, a left
    `fold`, bit truncation to a narrower unsigned width, and the reshaping of
    a flat array into equal parts (`unflatten`) and back (`flatten`).
    Fixed-size arrays are modelled as sequences; the array lengths that the
    Rust code carries in its types appear here as explicit parameters and
    preconditions. */
module Util {
  import opened Bits

  // ---------------------------------------------------------------------
  // map / zip / fold
  // ---------------------------------------------------------------------

  /** `FunctionalArray::map`: apply `f` to every element. */
  function Map<T, U>(a: seq<T>, f: T -> U): (r: seq<U>)
    ensures |r| == |a|
    ensures forall i | 0 <= i < |a| :: r[i] == f(a[i])
  {
    seq(|a|, i requires 0 <= i < |a| => f(a[i]))
  }

  /** `FunctionalArray::zip`: combine two equally long arrays element by element. */
  function Zip<T, U>(a: seq<T>, b: seq<T>, f: (T, T) -> U): (r: seq<U>)
    requires |a| == |b|
    ensures |r| == |a|
    ensures forall i | 0 <= i < |a| :: r[i] == f(a[i], b[i])
  {
    seq(|a|, i requires 0 <= i < |a| => f(a[i], b[i]))
  }

  /** The reference meaning of `FunctionalArray::fold`: the left fold
      `f(... f(f(a[0], a[1]), a[2]) ..., a[n-1])`, defined from its last step. */
  function Fold<T>(a: seq<T>, f: (T, T) -> T): T
    requires |a| > 0
  {
    if |a| == 1 then a[0] else f(Fold(a[..|a| - 1], f), a[|a| - 1])
  }

  /** `FunctionalArray::fold` as written: start from `a[0]` and combine the
      remaining elements in index order. */
  method FoldLoop<T>(a: seq<T>, f: (T, T) -> T) returns (out: T)
    requires |a| > 0
    ensures out == Fold(a, f)
    ensures |a| == 1 ==> out == a[0]
  {
    out := a[0];
    assert a[..1] == [a[0]];
    for i := 1 to |a|
      invariant out == Fold(a[..i], f)
    {
      assert a[..i + 1][..i] == a[..i];
      out := f(out, a[i]);
    }
    assert a[..|a|] == a;
  }

  /** `FastClone::fast_clone` maps the identity over the array: a copy. */
  function FastClone<T>(a: seq<T>): (r: seq<T>)
    ensures r == a
  {
    Map(a, (x: T) => x)
  }

  // ---------------------------------------------------------------------
  // Truncate
  // ---------------------------------------------------------------------

  /** `Truncate`: mask `x` with the all-ones value of a `width`-bit type
      (`T::MAX == 2^width - 1`) and reinterpret it at that width. The Rust
      instances are u32→u16, u64→u32, usize→u8, u128→u16 and u128→u8. */
  function Truncate(x: nat, width: nat): (r: nat)
    ensures r == x % Pow2(width)
    ensures r < Pow2(width)
    ensures x < Pow2(width) ==> r == x
  {
    BitAndLowMask(x, width);
    assert x < Pow2(width) ==> x % Pow2(width) == x by {
      if x < Pow2(width) {
        DivModUnique(x, Pow2(width), 0, x);
      }
    }
    BitAnd(x, Pow2(width) - 1)
  }

  // ---------------------------------------------------------------------
  // Flatten / Unflatten
  // ---------------------------------------------------------------------

  /** Every part has length `m`. */
  predicate Uniform<T>(parts: seq<seq<T>>, m: nat)
  {
    forall i | 0 <= i < |parts| :: |parts[i]| == m
  }

  /** `Flatten::flatten`: concatenate `N` parts of length `M` into one array
      of length `M * N`. */
  function Flatten<T>(parts: seq<seq<T>>, m: nat): (r: seq<T>)
    requires Uniform(parts, m)
    ensures |r| == m * |parts|
    decreases |parts|
  {
    if parts == [] then []
    else
      var rest := Flatten(parts[1..], m);
      assert m * |parts| == m + m * |parts[1..]|;
      parts[0] + rest
  }

  /** Element `j` of part `i` sits at position `i * m + j` of the flat array. */
  lemma {:induction false} FlattenIndex<T>(parts: seq<seq<T>>, m: nat, i: nat, j: nat)
    requires Uniform(parts, m) && i < |parts| && j < m
    ensures i * m + j < m * |parts|
    ensures Flatten(parts, m)[i * m + j] == parts[i][j]
    decreases i
  {
    PartBounds(|parts|, m, i);
    if i > 0 {
      FlattenIndex(parts[1..], m, i - 1, j);
      assert i * m + j == m + ((i - 1) * m + j);
    }
  }

  /** Part `i` of a flattened array is its `m` elements from `i * m`. */
  lemma FlattenPart<T>(parts: seq<seq<T>>, m: nat, i: nat)
    requires Uniform(parts, m) && i < |parts|
    ensures i * m + m <= m * |parts|
    ensures Flatten(parts, m)[i * m..i * m + m] == parts[i]
  {
    PartBounds(|parts|, m, i);
    var flat := Flatten(parts, m);
    forall j | 0 <= j < m
      ensures flat[i * m..i * m + m][j] == parts[i][j]
    {
      FlattenIndex(parts, m, i, j);
    }
  }

  /** Bounds of part `i` when an array of length `n * p` is cut into parts of length `p`. */
  lemma PartBounds(n: nat, p: nat, i: nat)
    requires i < n
    ensures 0 <= i * p && i * p + p <= n * p
  {
    assert n * p - (i * p + p) == (n - i - 1) * p;
  }

  /** Part `i` of length `p` of the array `a` of `count` such parts. */
  function Part<T>(a: seq<T>, p: nat, count: nat, i: nat): (r: seq<T>)
    requires |a| == count * p && i < count
    ensures |r| == p && 0 <= i * p && i * p + p <= |a|
    ensures forall j | 0 <= j < p :: r[j] == a[i * p + j]
  {
    PartBounds(count, p, i);
    var lo := i * p;
    a[lo..lo + p]
  }

  /** The `count` consecutive parts of length `p` of `a`. */
  function Parts<T>(a: seq<T>, p: nat, count: nat): (r: seq<seq<T>>)
    requires |a| == count * p
    ensures |r| == count && Uniform(r, p)
    ensures forall i | 0 <= i < count :: r[i] == Part(a, p, count, i)
  {
    seq(count, i requires 0 <= i < count => Part(a, p, count, i))
  }

  lemma DivExact(n: nat, d: nat)
    requires d > 0 && n % d == 0
    ensures n == d * (n / d)
  {
  }

  /** `Unflatten::unflatten`: cut an array of length `N` into `M` consecutive
      parts of length `N / M`; the source requires `N % M == 0`. */
  function Unflatten<T>(a: seq<T>, count: nat): (r: seq<seq<T>>)
    requires count > 0 && |a| % count == 0
    ensures |r| == count && Uniform(r, |a| / count)
  {
    DivExact(|a|, count);
    Parts(a, |a| / count, count)
  }

  /** Part `i` of an unflattened array is the slice of the array it covers. */
  lemma UnflattenPart<T>(a: seq<T>, count: nat, i: nat)
    requires count > 0 && |a| % count == 0 && i < count
    ensures i * (|a| / count) + |a| / count <= |a|
    ensures Unflatten(a, count)[i] == a[i * (|a| / count)..i * (|a| / count) + |a| / count]
  {
    DivExact(|a|, count);
    PartBounds(count, |a| / count, i);
  }

  /** `Unflatten::unflatten` on a borrowed array: a cursor walks through the
      array and each part is the `part_size` elements at the cursor. */
  method UnflattenRef<T>(a: seq<T>, count: nat) returns (parts: seq<seq<T>>)
    requires count > 0 && |a| % count == 0
    ensures parts == Unflatten(a, count)
  {
    var partSize := |a| / count;
    DivExact(|a|, count);
    var cursor := 0;
    parts := [];
    for i := 0 to count
      invariant |parts| == i && cursor == i * partSize
      invariant forall j | 0 <= j < i :: parts[j] == Part(a, partSize, count, j)
    {
      PartBounds(count, partSize, i);
      NextCursor(i, partSize);
      var part := a[cursor..cursor + partSize];
      assert part == Part(a, partSize, count, i);
      cursor := cursor + partSize;
      parts := parts + [part];
    }
    assert parts == Parts(a, partSize, count);
  }

  /** The cursor after part `i` is where part `i + 1` starts. */
  lemma NextCursor(i: nat, p: nat)
    ensures i * p + p == (i + 1) * p
  {
  }

  /** Peeling the first part off. */
  lemma PartsCons<T>(a: seq<T>, p: nat, count: nat)
    requires |a| == count * p && count > 0
    ensures p <= |a| && |a[p..]| == (count - 1) * p
    ensures Parts(a, p, count) == [a[..p]] + Parts(a[p..], p, count - 1)
  {
    PartBounds(count, p, 0);
    var r := Parts(a, p, count);
    var s := [a[..p]] + Parts(a[p..], p, count - 1);
    forall i | 0 < i < count
      ensures r[i] == s[i]
    {
      assert i * p == p + (i - 1) * p;
      var x, y := r[i], s[i];
      assert x == Part(a, p, count, i);
      assert y == Part(a[p..], p, count - 1, i - 1);
      forall j | 0 <= j < p
        ensures x[j] == y[j]
      {
        assert y[j] == a[p..][(i - 1) * p + j];
      }
    }
    assert r[0] == s[0];
  }

  lemma {:induction false} FlattenParts<T>(a: seq<T>, p: nat, count: nat)
    requires |a| == count * p
    ensures Flatten(Parts(a, p, count), p) == a
    decreases count
  {
    if count > 0 {
      PartsCons(a, p, count);
      FlattenParts(a[p..], p, count - 1);
      var parts := Parts(a, p, count);
      assert parts[1..] == Parts(a[p..], p, count - 1);
      assert a == a[..p] + a[p..];
    }
  }

  /** Cutting and re-joining gives back the original array. */
  lemma FlattenUnflatten<T>(a: seq<T>, count: nat)
    requires count > 0 && |a| % count == 0
    ensures Flatten(Unflatten(a, count), |a| / count) == a
  {
    DivExact(|a|, count);
    FlattenParts(a, |a| / count, count);
  }

  /** Joining and re-cutting gives back the original parts. */
  lemma UnflattenFlatten<T>(parts: seq<seq<T>>, m: nat)
    requires Uniform(parts, m) && |parts| > 0
    ensures |Flatten(parts, m)| % |parts| == 0
    ensures |Flatten(parts, m)| / |parts| == m
    ensures Unflatten(Flatten(parts, m), |parts|) == parts
  {
    var n := |parts|;
    var flat := Flatten(parts, m);
    DivModUnique(m * n, n, m, 0);
    var r := Unflatten(flat, n);
    assert r == Parts(flat, m, n);
    forall i | 0 <= i < n
      ensures r[i] == parts[i]
    {
      forall j | 0 <= j < m
        ensures r[i][j] == parts[i][j]
      {
        FlattenIndex(parts, m, i, j);
      }
    }
  }

  /** The arrays of the Rust test `flatten`: ten numbers, as five pairs
      and as two halves. */
  const Ten: seq<int> := [1, 2, 3, 4, 5, 6, 7, 8, 9, 10]
  const Pairs: seq<seq<int>> := [[1, 2], [3, 4], [5, 6], [7, 8], [9, 10]]
  const Halves: seq<seq<int>> := [[1, 2, 3, 4, 5], [6, 7, 8, 9, 10]]

  /** Flattening the pairs or the halves gives the ten numbers, and
      unflattening the ten numbers into five or two parts gives them back. */
  lemma FlattenExample()
    ensures Uniform(Pairs, 2) && Uniform(Halves, 5)
    ensures Flatten(Pairs, 2) == Ten && Flatten(Halves, 5) == Ten
    ensures Unflatten(Ten, 5) == Pairs && Unflatten(Ten, 2) == Halves
  {
    assert Flatten(Pairs, 2) == Ten by {
      assert Flatten(Pairs[4..], 2) == [9, 10];
      assert Flatten(Pairs[3..], 2) == [7, 8, 9, 10];
      assert Flatten(Pairs[2..], 2) == [5, 6, 7, 8, 9, 10];
      assert Flatten(Pairs[1..], 2) == [3, 4, 5, 6, 7, 8, 9, 10];
    }
    assert Flatten(Halves, 5) == Ten by {
      assert Flatten(Halves[1..], 5) == [6, 7, 8, 9, 10];
    }
    UnflattenFlatten(Pairs, 2);
    UnflattenFlatten(Halves, 5);
  }
}
