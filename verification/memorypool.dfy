/** The fixed-block pool of `memorypool.cpp`. Memory is abstract: an address is a natural
    number, a page is the address `new char[pageSize]` returned (an input to the
    operation that needs one), and a block's `next` link is its position in the free
    list, whose head is index 0. The general allocator behind the pool is outside the
    model: `malloc`'s result is an input and `free` is reported. */
module MemoryPool {
  import opened Common

  /** `sizeof(Node)`: one `next` pointer on a 64-bit target. */
  const NodeSize: nat := 8

  datatype Pool = Pool(pageSize: nat, blockSize: nat, alignSize: nat, pages: seq<nat>, freeList: seq<nat>)

  predicate IsPow2(n: nat)
    decreases n
  {
    if n == 1 then true
    else if n == 0 || n % 2 == 1 then false
    else IsPow2(n / 2)
  }

  lemma MulAtLeast(a: int, m: int)
    requires a >= 1 && m >= 0
    ensures a * m >= m
  {}

  lemma MulSmall(d: int, m: int)
    requires m > 0 && -m < d * m < m
    ensures d == 0
  {
    if d >= 1 {
      MulAtLeast(d, m);
    } else if d <= -1 {
      MulAtLeast(-d, m);
    }
  }

  /** Euclidean division is unique. */
  lemma DivUnique(x: int, m: int, q: int, r: int)
    requires m > 0 && 0 <= r < m && x == q * m + r
    ensures x / m == q && x % m == r
  {
    var q0 := x / m;
    var r0 := x % m;
    assert x == q0 * m + r0;
    assert (q - q0) * m == q * m - q0 * m;
    MulSmall(q - q0, m);
  }

  lemma MulDivExact(k: nat, m: nat)
    requires m > 0
    ensures (k * m) % m == 0 && (k * m) / m == k
  {
    DivUnique(k * m, m, k, 0);
  }

  /** `(b + a - 1) & ~(a - 1)` for a power of two `a`: the least multiple of `a` that is
      not below `b`. */
  function RoundUp(b: nat, a: nat): (r: nat)
    requires a > 0
    ensures r % a == 0 && b <= r < b + a
  {
    var q := (b + a - 1) / a;
    MulDivExact(q, a);
    assert q * a <= b + a - 1 < q * a + a;
    q * a
  }

  /** Blocks a page is cut into: `pageSize / blockSize`. */
  function BlockCount(p: Pool): nat
    requires p.blockSize > 0
  {
    p.pageSize / p.blockSize
  }

  /** The bytes of a page that hold whole blocks: `pageSize - pageSize % blockSize`. */
  function Usable(p: Pool): nat
    requires p.blockSize > 0
  {
    p.pageSize - p.pageSize % p.blockSize
  }

  /** Address `a` is a block boundary inside the usable part of the page at `base`. */
  predicate InPage(p: Pool, base: nat, a: nat)
    requires p.blockSize > 0
  {
    base <= a < base + Usable(p) && (a - base) % p.blockSize == 0
  }

  /** Some page of the pool owns `a` as a block. */
  predicate Owns(p: Pool, a: nat)
    requires p.blockSize > 0
  {
    exists k :: 0 <= k < |p.pages| && InPage(p, p.pages[k], a)
  }

  /** The pool's invariant: blocks hold at least a link, pages hold at least a block, and
      every free block belongs to a page. */
  ghost predicate Valid(p: Pool)
  {
    p.blockSize >= NodeSize && p.pageSize >= p.blockSize &&
    forall i :: 0 <= i < |p.freeList| ==> Owns(p, p.freeList[i])
  }

  /** The constructor: the block size is the requested size rounded up to the alignment,
      but at least one link; the page size is raised to one block if smaller. */
  function NewPool(pS: nat, bS: nat, aS: nat): (p: Pool)
    requires IsPow2(aS)
    ensures Valid(p) && p.pages == [] && p.freeList == [] && p.alignSize == aS
    ensures p.blockSize >= RoundUp(bS, aS) && p.blockSize >= NodeSize
    ensures p.blockSize == NodeSize || (p.blockSize % aS == 0 && p.blockSize < bS + aS)
    ensures p.pageSize >= pS && p.pageSize >= p.blockSize
    ensures p.pageSize == pS || p.pageSize == p.blockSize
  {
    assert aS > 0;
    var aligned := RoundUp(bS, aS);
    var bs := if aligned < NodeSize then NodeSize else aligned;
    Pool(if pS < bs then bs else pS, bs, aS, [], [])
  }

  /** The `n` blocks of the page at `base` once pushed in ascending order onto a LIFO
      list: the highest block first. */
  function Blocks(base: nat, bs: nat, n: nat): (r: seq<nat>)
    ensures |r| == n
    ensures forall i :: 0 <= i < n ==> r[i] == base + (n - 1 - i) * bs
  {
    if n == 0 then [] else [base + (n - 1) * bs] + Blocks(base, bs, n - 1)
  }

  /** The blocks cut from one page are `blockSize` apart at least, so no two overlap. */
  lemma BlocksDoNotOverlap(base: nat, bs: nat, n: nat, i: nat, j: nat)
    requires bs > 0 && i < j < n
    ensures Blocks(base, bs, n)[i] >= Blocks(base, bs, n)[j] + bs
  {
    MulAtLeast(j - i, bs);
    assert (n - 1 - i) * bs == (n - 1 - j) * bs + (j - i) * bs;
  }

  /** Every block `expand` cuts from a page lies in the page's usable part, on a block
      boundary. */
  lemma BlockInPage(p: Pool, base: nat, k: nat)
    requires p.blockSize > 0 && k < BlockCount(p)
    ensures InPage(p, base, base + k * p.blockSize)
  {
    var bs := p.blockSize;
    var n := BlockCount(p);
    MulDivExact(k, bs);
    assert p.pageSize == n * bs + p.pageSize % bs;
    assert Usable(p) == n * bs;
    MulAtLeast(n - k, bs);
    assert (n - k) * bs == n * bs - k * bs;
    assert base + k * p.blockSize - base == k * bs;
  }

  /** `expand`: add the page at `base` and push its `pageSize / blockSize` blocks, at
      offsets `i * blockSize` in ascending order, onto the free list. */
  function Expand(p: Pool, base: nat): (q: Pool)
    requires Valid(p)
    ensures Valid(q)
    ensures q.pages == p.pages + [base]
    ensures q.freeList == Blocks(base, p.blockSize, BlockCount(p)) + p.freeList
    ensures q.pageSize == p.pageSize && q.blockSize == p.blockSize && q.alignSize == p.alignSize
  {
    var n := BlockCount(p);
    var q := p.(pages := p.pages + [base], freeList := Blocks(base, p.blockSize, n) + p.freeList);
    assert forall k :: 0 <= k < |p.pages| ==> q.pages[k] == p.pages[k];
    forall i | 0 <= i < |q.freeList|
      ensures Owns(q, q.freeList[i])
    {
      if i < n {
        BlockInPage(p, base, n - 1 - i);
        assert q.pages[|p.pages|] == base;
      } else {
        assert q.freeList[i] == p.freeList[i - n];
      }
    }
    q
  }

  /** A page always yields at least one block, so `allocate`'s "still empty after
      expanding" return is never taken. */
  lemma ExpandNeverEmpty(p: Pool, base: nat)
    requires Valid(p)
    ensures BlockCount(p) >= 1 && Expand(p, base).freeList != []
  {
    assert p.pageSize / p.blockSize >= 1;
  }

  /** Popping the head of the free list keeps the invariant, and the popped block still
      belongs to a page. */
  lemma PopValid(q: Pool)
    requires Valid(q) && q.freeList != []
    ensures Valid(q.(freeList := q.freeList[1..]))
    ensures Owns(q.(freeList := q.freeList[1..]), q.freeList[0])
  {
    var rest := q.(freeList := q.freeList[1..]);
    assert forall i :: 0 <= i < |rest.freeList| ==> rest.freeList[i] == q.freeList[i + 1];
  }

  datatype Allocation = Allocation(pool: Pool, addr: nat, pooled: bool)

  /** `allocate`: a request of at most one block pops the free list, expanding with the
      page at `freshPage` first when the list is empty; a larger one goes to `malloc`,
      which returns `heapAddr`, and leaves the pool alone. */
  function Allocate(p: Pool, size: nat, freshPage: nat, heapAddr: nat): (r: Allocation)
    requires Valid(p)
    ensures Valid(r.pool)
    ensures r.pooled <==> size <= p.blockSize
    ensures !r.pooled ==> r.pool == p && r.addr == heapAddr
    ensures r.pooled && p.freeList != [] ==>
              r.addr == p.freeList[0] && r.pool == p.(freeList := p.freeList[1..])
    ensures r.pooled && p.freeList == [] ==>
              r.pool.pages == p.pages + [freshPage] &&
              r.addr == freshPage + (BlockCount(p) - 1) * p.blockSize &&
              r.pool.freeList == Blocks(freshPage, p.blockSize, BlockCount(p) - 1)
    ensures r.pooled ==> Owns(r.pool, r.addr)
    ensures r.pool.pageSize == p.pageSize && r.pool.blockSize == p.blockSize
  {
    if size <= p.blockSize then
      var q := if p.freeList == [] then Expand(p, freshPage) else p;
      ExpandNeverEmpty(p, freshPage);
      var rest := q.(freeList := q.freeList[1..]);
      PopValid(q);
      var n := BlockCount(p);
      assert p.freeList == [] ==>
               q.freeList == Blocks(freshPage, p.blockSize, n) &&
               q.freeList[1..] == Blocks(freshPage, p.blockSize, n - 1);
      Allocation(rest, q.freeList[0], true)
    else
      Allocation(p, heapAddr, false)
  }

  /** The ownership test of `deallocate`'s loop over the pages, in order. */
  function FindPage(p: Pool, pages: seq<nat>, a: nat): (found: bool)
    requires p.blockSize > 0
    ensures found <==> exists k :: 0 <= k < |pages| && InPage(p, pages[k], a)
  {
    if |pages| == 0 then false
    else if InPage(p, pages[0], a) then true
    else
      var found := FindPage(p, pages[1..], a);
      assert forall k :: 1 <= k < |pages| ==> pages[k] == pages[1..][k - 1];
      found
  }

  datatype Release = Release(pool: Pool, toHeap: bool)

  /** `deallocate`: null is ignored; an address some page owns as a block is pushed back
      onto the free list; any other address is handed to `free`. */
  function Deallocate(p: Pool, ptr: Option<nat>): (r: Release)
    requires p.blockSize > 0
    ensures ptr.None? ==> r == Release(p, false)
    ensures ptr.Some? && Owns(p, ptr.value) ==> r == Release(p.(freeList := [ptr.value] + p.freeList), false)
    ensures ptr.Some? && !Owns(p, ptr.value) ==> r == Release(p, true)
  {
    match ptr
    case None => Release(p, false)
    case Some(a) =>
      if FindPage(p, p.pages, a) then Release(p.(freeList := [a] + p.freeList), false)
      else Release(p, true)
  }

  lemma DeallocateValid(p: Pool, ptr: Option<nat>)
    requires Valid(p)
    ensures Valid(Deallocate(p, ptr).pool)
  {
    var r := Deallocate(p, ptr);
    forall i | 0 <= i < |r.pool.freeList|
      ensures Owns(r.pool, r.pool.freeList[i])
    {
      if ptr.Some? && Owns(p, ptr.value) && i > 0 {
        assert r.pool.freeList[i] == p.freeList[i - 1];
      }
    }
  }

  /** A block handed back is the very next block handed out, and the pool is as before. */
  lemma DeallocateThenAllocate(p: Pool, a: nat, size: nat, freshPage: nat, heapAddr: nat)
    requires Valid(p) && Owns(p, a) && size <= p.blockSize
    ensures var q := Deallocate(p, Some(a)).pool;
            Valid(q) &&
            Allocate(q, size, freshPage, heapAddr).addr == a &&
            Allocate(q, size, freshPage, heapAddr).pool == p
  {
    DeallocateValid(p, Some(a));
    var q := Deallocate(p, Some(a)).pool;
    assert q.freeList[1..] == p.freeList;
  }

  /** Handing back the block just allocated restores the free list, and puts the
      allocated block back on top. */
  lemma AllocateThenDeallocate(p: Pool, size: nat, freshPage: nat, heapAddr: nat)
    requires Valid(p) && size <= p.blockSize
    ensures var r := Allocate(p, size, freshPage, heapAddr);
            var d := Deallocate(r.pool, Some(r.addr));
            !d.toHeap && d.pool.freeList == [r.addr] + r.pool.freeList &&
            (p.freeList != [] ==> d.pool == p)
  {
    var r := Allocate(p, size, freshPage, heapAddr);
    if p.freeList != [] {
      assert [p.freeList[0]] + p.freeList[1..] == p.freeList;
    }
  }

  /** `n` rounds of allocating a small block and freeing it again. */
  function Cycles(p: Pool, n: nat, size: nat, freshPage: nat): (q: Pool)
    requires Valid(p) && size <= p.blockSize
    ensures Valid(q) && q.blockSize == p.blockSize
    decreases n
  {
    if n == 0 then p
    else
      var a := Allocate(p, size, freshPage, 0);
      DeallocateValid(a.pool, Some(a.addr));
      Cycles(Deallocate(a.pool, Some(a.addr)).pool, n - 1, size, freshPage)
  }

  /** Repeated allocate/free cycles of small blocks add a page only when the first one
      finds the free list empty, and never again. */
  lemma {:induction false} CyclesAddAtMostOnePage(p: Pool, n: nat, size: nat, freshPage: nat)
    requires Valid(p) && size <= p.blockSize
    ensures Cycles(p, n, size, freshPage).pages ==
              if n == 0 || p.freeList != [] then p.pages else p.pages + [freshPage]
    ensures n > 0 ==> Cycles(p, n, size, freshPage).freeList != []
    decreases n
  {
    if n > 0 {
      var a := Allocate(p, size, freshPage, 0);
      var d := Deallocate(a.pool, Some(a.addr)).pool;
      assert d.freeList != [] && d.pages == a.pool.pages;
      DeallocateValid(a.pool, Some(a.addr));
      CyclesAddAtMostOnePage(d, n - 1, size, freshPage);
    }
  }

  /** From a fresh pool, any number of small allocate/free cycles uses one page at most. */
  lemma FreshPoolCyclesUseOnePage(pS: nat, bS: nat, aS: nat, n: nat, size: nat, freshPage: nat)
    requires IsPow2(aS) && size <= NewPool(pS, bS, aS).blockSize
    ensures |Cycles(NewPool(pS, bS, aS), n, size, freshPage).pages| <= 1
  {
    CyclesAddAtMostOnePage(NewPool(pS, bS, aS), n, size, freshPage);
  }
}
