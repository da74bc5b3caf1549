/**
 The two memory primitives the core relies on, over sequences of cells:
 `memmove` (copy a range as if through a temporary buffer, so overlapping
 ranges are fine) and the contents of a block after `realloc` (the common
 prefix survives, the rest is whatever the fresh memory held).
 */
module Memory {

  /** `memmove(&mem[dst], &mem[src], count)` on a buffer of cells. */
  function Move<T>(mem: seq<T>, dst: nat, src: nat, count: nat): (r: seq<T>)
    requires dst + count <= |mem| && src + count <= |mem|
    ensures |r| == |mem|
    ensures r[dst..dst + count] == mem[src..src + count]
    ensures r[..dst] == mem[..dst] && r[dst + count..] == mem[dst + count..]
  {
    mem[..dst] + mem[src..src + count] + mem[dst + count..]
  }

  /**
   The cells of a block of `n` cells returned by `realloc` for the block
   `previous`: the first `min(|previous|, n)` cells are kept, the others
   hold whatever `garbage` says fresh memory holds.
   */
  function Realloced<T>(previous: seq<T>, n: nat, garbage: nat -> T): (r: seq<T>)
    ensures |r| == n
    ensures r[..Min(|previous|, n)] == previous[..Min(|previous|, n)]
    ensures r[Min(|previous|, n)..] == seq(n - Min(|previous|, n), i requires 0 <= i => garbage(Min(|previous|, n) + i))
  {
    var k := Min(|previous|, n);
    previous[..k] + seq(n - k, i requires 0 <= i => garbage(k + i))
  }

  /** Any shorter prefix of the kept cells is kept as well. */
  lemma ReallocedKeeps<T>(previous: seq<T>, n: nat, garbage: nat -> T, k: nat)
    requires k <= n && k <= |previous|
    ensures Realloced(previous, n, garbage)[..k] == previous[..k]
  {
    var r := Realloced(previous, n, garbage);
    var m := Min(|previous|, n);
    assert r[..k] == r[..m][..k];
    assert previous[..k] == previous[..m][..k];
  }

  /** Two sequences that agree on a prefix agree on every slice inside it. */
  lemma SameSlice<T>(a: seq<T>, b: seq<T>, k: nat, i: nat, j: nat)
    requires i <= j <= k <= |a| && k <= |b| && a[..k] == b[..k]
    ensures a[i..j] == b[i..j]
  {
    forall x | i <= x < j
      ensures a[x] == b[x]
    {
      assert a[x] == a[..k][x];
      assert b[x] == b[..k][x];
    }
  }

  /** Two sequences that agree from `k` on agree on every slice there. */
  lemma SameSliceAfter<T>(a: seq<T>, b: seq<T>, k: nat, i: nat, j: nat)
    requires k <= i <= j <= |a| && |a| == |b| && a[k..] == b[k..]
    ensures a[i..j] == b[i..j]
  {
    forall x | i <= x < j
      ensures a[x] == b[x]
    {
      assert a[x] == a[k..][x - k];
      assert b[x] == b[k..][x - k];
    }
  }

  function Min(a: nat, b: nat): nat {
    if a < b then a else b
  }
}
