/** Helpers the repository imports from `src/utils.js`. Only `assert` is part of that
    file as shown; the others are given minimal definitions here. */
module Utils {

  datatype Option<+T> = None | Some(value: T)

  /** 2^k */
  function Pow2(k: nat): (r: nat)
    ensures r >= 1
    decreases k
  {
    if k == 0 then 1 else 2 * Pow2(k - 1)
  }

  lemma {:induction false} Pow2Monotone(a: nat, b: nat)
    requires a <= b
    ensures Pow2(a) <= Pow2(b)
    decreases b
  {
    if a < b {
      Pow2Monotone(a, b - 1);
    }
  }

  lemma {:induction false} Pow2Add(a: nat, b: nat)
    ensures Pow2(a + b) == Pow2(a) * Pow2(b)
    decreases a
  {
    if a > 0 {
      Pow2Add(a - 1, b);
    }
  }

  /** floor(log2 n), the integer form of `Math.floor(Math.log2(n))`. */
  function Log2(n: nat): (k: nat)
    requires n >= 1
    ensures Pow2(k) <= n < 2 * Pow2(k)
    decreases n
  {
    if n == 1 then 0 else Log2(n / 2) + 1
  }

  /** The exponent named by an enclosing power of two is the floor logarithm. */
  lemma {:induction false} Log2Unique(n: nat, k: nat)
    requires Pow2(k) <= n < 2 * Pow2(k)
    ensures Log2(n) == k
  {
    var j := Log2(n);
    if j < k {
      Pow2Monotone(j + 1, k);
    } else if j > k {
      Pow2Monotone(k + 1, j);
    }
  }

  /** ceil(log2 n), the integer form of `Math.ceil(Math.log2(n))`. */
  function CeilLog2(n: nat): (k: nat)
    requires n >= 1
    ensures n <= Pow2(k)
    ensures k > 0 ==> Pow2(k - 1) < n
  {
    if n == 1 then 0 else Log2(n - 1) + 1
  }

  /** No element occurs twice. */
  predicate Distinct(s: seq<nat>)
  {
    forall i, j :: 0 <= i < j < |s| ==> s[i] != s[j]
  }

  function Min(a: int, b: int): int { if a <= b then a else b }
  function Max(a: int, b: int): int { if a >= b then a else b }

  /** `sum(xs, init)`: init plus the sum of the elements. */
  function Sum(xs: seq<nat>, init: nat := 0): (r: nat)
    ensures forall i :: 0 <= i < |xs| ==> xs[i] <= r - init
    decreases |xs|
  {
    if xs == [] then init else xs[0] + Sum(xs[1..], init)
  }

  /** `range(a, b)`: the integers a, a+1, ..., b-1. */
  function Range(a: int, b: int): (r: seq<int>)
    ensures |r| == if a <= b then b - a else 0
    ensures forall i :: 0 <= i < |r| ==> r[i] == a + i
    decreases b - a
  {
    if a >= b then [] else [a] + Range(a + 1, b)
  }

  /** `replace(arr, old, new?)`: a copy of `arr` where the first occurrence of `x` is
      replaced by `y`, or dropped when `y` is absent; `arr` itself when `x` does not occur. */
  function Replace<T(==)>(arr: seq<T>, x: T, y: Option<T>): (r: seq<T>)
    ensures x !in arr ==> r == arr
    ensures x in arr && y.Some? ==> |r| == |arr|
    ensures x in arr && y.None? ==> |r| == |arr| - 1
    ensures forall z :: z in r ==> z in arr || (y.Some? && z == y.value)
    decreases |arr|
  {
    if arr == [] then []
    else if arr[0] == x then (if y.Some? then [y.value] else []) + arr[1..]
    else [arr[0]] + Replace(arr[1..], x, y)
  }

  /** `Replace` acts on the part the element is first found in. */
  lemma {:induction false} ReplaceConcat<T>(a: seq<T>, b: seq<T>, x: T, y: Option<T>)
    ensures Replace(a + b, x, y) == if x in a then Replace(a, x, y) + b else a + Replace(b, x, y)
    decreases |a|
  {
    if a == [] {
      assert a + b == b;
    } else if a[0] == x {
      assert (a + b)[0] == x && (a + b)[1..] == a[1..] + b;
    } else {
      assert (a + b)[0] == a[0] && (a + b)[1..] == a[1..] + b;
      ReplaceConcat(a[1..], b, x, y);
      assert x in a <==> x in a[1..];
    }
  }

  /** The sequence without its element at i (`splice(i, 1)`). */
  function Without<T>(cs: seq<T>, i: nat): (r: seq<T>)
    requires i < |cs|
    ensures |r| == |cs| - 1
    ensures forall j :: 0 <= j < i ==> r[j] == cs[j]
    ensures forall j :: i <= j < |r| ==> r[j] == cs[j + 1]
  {
    cs[..i] + cs[i + 1..]
  }

  /** Index of the first occurrence of x (the form `indexOf` takes). */
  function IndexOf<T(==)>(arr: seq<T>, x: T): (i: int)
    ensures -1 <= i < |arr|
    ensures i >= 0 ==> arr[i] == x && x !in arr[..i]
    ensures i < 0 <==> x !in arr
    decreases |arr|
  {
    if arr == [] then -1
    else if arr[0] == x then 0
    else var j := IndexOf(arr[1..], x); if j < 0 then -1 else j + 1
  }

  /** The first index of x in a + b: in a when x is there, otherwise shifted by |a|. */
  lemma {:induction false} IndexOfConcat<T>(a: seq<T>, b: seq<T>, x: T)
    ensures x in a ==> IndexOf(a + b, x) == IndexOf(a, x)
    ensures x !in a && x in b ==> IndexOf(a + b, x) == |a| + IndexOf(b, x)
    decreases |a|
  {
    if a == [] {
      assert a + b == b;
    } else {
      assert (a + b)[0] == a[0] && (a + b)[1..] == a[1..] + b;
      if a[0] != x {
        IndexOfConcat(a[1..], b, x);
        assert x in a <==> x in a[1..];
      }
    }
  }

  /** `Replace` on a present element is the splice at its first index. */
  lemma {:induction false} ReplaceAt<T>(arr: seq<T>, x: T, y: Option<T>)
    requires x in arr
    ensures var i := IndexOf(arr, x);
            Replace(arr, x, y) == arr[..i] + (if y.Some? then [y.value] else []) + arr[i + 1..]
    decreases |arr|
  {
    var i := IndexOf(arr, x);
    var mid := if y.Some? then [y.value] else [];
    if arr[0] != x {
      ReplaceAt(arr[1..], x, y);
      assert IndexOf(arr[1..], x) == i - 1;
      assert arr[1..][..i - 1] == arr[1..i] && arr[1..][i - 1 + 1..] == arr[i + 1..];
      calc {
        Replace(arr, x, y);
        [arr[0]] + (arr[1..i] + mid + arr[i + 1..]);
        { assert arr[..i] == [arr[0]] + arr[1..i]; }
        arr[..i] + mid + arr[i + 1..];
      }
    } else {
      assert arr[..i] == [];
    }
  }

  /** A predicate on [0, n) is monotone when it holds on a prefix and fails afterwards. */
  ghost predicate MonotoneBelow(n: nat, p: nat -> bool)
  {
    forall i, j :: 0 <= i <= j < n && p(j) ==> p(i)
  }

  /** `binary_search_last(n, p)`: the last index below n where the monotone predicate p
      holds, or -1 when it holds nowhere. */
  method BinarySearchLast(n: nat, p: nat -> bool) returns (r: int)
    requires MonotoneBelow(n, p)
    ensures -1 <= r < n
    ensures forall i :: 0 <= i <= r ==> p(i)
    ensures forall i :: r < i < n ==> !p(i)
  {
    var lo, hi := 0, n;
    while lo < hi
      invariant 0 <= lo <= hi <= n
      invariant forall i :: 0 <= i < lo ==> p(i)
      invariant forall i :: hi <= i < n ==> !p(i)
      decreases hi - lo
    {
      var mid := lo + (hi - lo) / 2;
      if p(mid) {
        lo := mid + 1;
      } else {
        hi := mid;
      }
    }
    r := lo - 1;
  }
}
