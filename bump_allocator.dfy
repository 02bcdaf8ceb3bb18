/**
 * The dual-ended early allocator `EarlyAllocator<PAGE_SIZE>`.
 *
 * One region `[start, end)` is carved from both ends: byte allocations bump
 * `bNext` upward under a soft ceiling `bEnd` that grows one page at a time;
 * page allocations bump `pNext` downward above a soft floor `pEnd`. Each side
 * keeps a count of live allocations and resets its frontier when the count
 * drops to zero.
 *
 * The eight `usize` fields are modelled as naturals below 2^64; every place
 * where the source would overflow or underflow a `usize` (and so panic) is a
 * `requires`. The value-level step functions (`AllocStep`, ...) say what each
 * operation does to a snapshot of the fields; the class `EarlyAllocator` is
 * the imperative code, each of its methods proved to move its fields exactly
 * as the matching step function says.
 */
module BumpAllocator {
  import opened Bits

  // ---------------------------------------------------------------------
  // Alignment helpers
  // ---------------------------------------------------------------------

  /** `pos & !(align - 1)`: the greatest multiple of `align` that is at most `pos`. */
  function AlignDown(pos: nat, align: nat): (r: nat)
    requires pos < WORD && IsPow2(align) && align < WORD
    ensures r % align == 0 && r <= pos && pos - r < align
  {
    MaskWord(pos, align);
    RoundDown(pos, align);
    BitAnd(pos, BitNot(align - 1))
  }

  /**
   * `(pos + align - 1) & !(align - 1)`: the least multiple of `align` that is
   * at least `pos`. The sum `pos + align` is formed first, so it must fit.
   */
  function AlignUp(pos: nat, align: nat): (r: nat)
    requires IsPow2(align) && pos + align < WORD
    ensures r % align == 0 && pos <= r && r - pos < align
  {
    var x := pos + align - 1;
    MaskWord(x, align);
    RoundUp(pos, align);
    BitAnd(x, BitNot(align - 1))
  }

  /** In 64 bits, masking with the complement of `a - 1` clears the remainder modulo `a`. */
  lemma MaskWord(x: nat, a: nat)
    requires IsPow2(a) && a <= WORD && x < WORD
    ensures a > 0 && BitAnd(x, BitNot(a - 1)) == x - x % a
  {
    WordIsPow2();
    MaskLow(x, WORD, a);
  }

  /** Rounding `pos + a - 1` down to a multiple of `a` gives the least multiple of `a` at or above `pos`. */
  lemma RoundUp(pos: nat, a: nat)
    requires a > 0
    ensures var x := pos + a - 1;
      (x - x % a) % a == 0 && pos <= x - x % a && x - x % a - pos < a
  {
    RoundDown(pos + a - 1, a);
  }

  /** `AlignDown(pos, align)` is the greatest multiple of `align` that is at most `pos`. */
  lemma AlignDownGreatest(pos: nat, align: nat, m: nat)
    requires pos < WORD && IsPow2(align) && align < WORD
    requires m % align == 0 && m <= pos
    ensures m <= AlignDown(pos, align)
  {
    var d := AlignDown(pos, align);
    if m > d {
      SubMultiples(m, d, align);
    }
  }

  /** `AlignUp(pos, align)` is the least multiple of `align` that is at least `pos`. */
  lemma AlignUpLeast(pos: nat, align: nat, m: nat)
    requires IsPow2(align) && pos + align < WORD
    requires m % align == 0 && pos <= m
    ensures AlignUp(pos, align) <= m
  {
    var u := AlignUp(pos, align);
    if m < u {
      SubMultiples(u, m, align);
    }
  }

  /** The difference of two multiples of `a` is a multiple of `a`, so a positive one is at least `a`. */
  lemma SubMultiples(x: nat, y: nat, a: nat)
    requires a > 0 && x % a == 0 && y % a == 0 && y < x
    ensures (x - y) % a == 0 && x - y >= a
  {
    var qx, qy := x / a, y / a;
    assert x == a * qx && y == a * qy;
    assert qx > qy by {
      if qx <= qy { MulLe(a, qx, qy); }
    }
    assert x - y == a * (qx - qy) by { DistSub(a, qx, qy); }
    ModUnique(x - y, a, qx - qy, 0);
    MulAtLeast(a, qx - qy);
  }

  lemma MulLe(a: nat, p: nat, q: nat)
    requires p <= q
    ensures a * p <= a * q
  {
  }

  lemma DistSub(a: nat, p: nat, q: nat)
    requires q <= p
    ensures a * (p - q) == a * p - a * q
  {
  }

  // ---------------------------------------------------------------------
  // Results and state snapshots
  // ---------------------------------------------------------------------

  datatype AllocError = NoMemory | InvalidParam

  datatype AllocResult<T> = Ok(value: T) | Err(error: AllocError)

  /** The eight fields of `EarlyAllocator`, as a value. */
  datatype AllocatorState = AllocatorState(
    start: nat, end: nat,
    bNext: nat, bAlloc: nat, bEnd: nat,
    pAlloc: nat, pNext: nat, pEnd: nat)
  {
    /** `total_bytes`: size of the granted byte zone `[start, bEnd)`. */
    function TotalBytes(): (r: nat)
      requires start <= bEnd
      ensures start + r == bEnd
    {
      bEnd - start
    }

    /** `used_bytes`: bytes between `start` and the byte frontier. */
    function UsedBytes(): (r: nat)
      requires start <= bNext
      ensures start + r == bNext
    {
      bNext - start
    }

    /** `available_bytes`: bytes between the byte frontier and the ceiling (a `usize` subtraction). */
    function AvailableBytes(): (r: nat)
      requires bNext <= bEnd
      ensures bNext + r == bEnd
    {
      bEnd - bNext
    }

    /** `total_pages`: the number of whole pages between the floor and `end`. */
    function TotalPages(pageSize: nat): (r: nat)
      requires pageSize > 0 && pEnd <= end
      ensures r * pageSize <= end - pEnd < r * pageSize + pageSize
    {
      WholePages(end - pEnd, pageSize);
      (end - pEnd) / pageSize
    }

    /** `used_pages`: the number of whole pages between the page frontier and `end`. */
    function UsedPages(pageSize: nat): (r: nat)
      requires pageSize > 0 && pNext <= end
      ensures r * pageSize <= end - pNext < r * pageSize + pageSize
    {
      WholePages(end - pNext, pageSize);
      (end - pNext) / pageSize
    }

    /** `available_pages`: the number of whole pages between the floor and the page frontier (a `usize` subtraction). */
    function AvailablePages(pageSize: nat): (r: nat)
      requires pageSize > 0 && pEnd <= pNext
      ensures r * pageSize <= pNext - pEnd < r * pageSize + pageSize
    {
      WholePages(pNext - pEnd, pageSize);
      (pNext - pEnd) / pageSize
    }
  }

  /** `d / pageSize` is the number of whole pages in `d` bytes. */
  lemma WholePages(d: nat, pageSize: nat)
    requires pageSize > 0
    ensures d / pageSize * pageSize <= d < d / pageSize * pageSize + pageSize
  {
    assert d == pageSize * (d / pageSize) + d % pageSize;
  }

  /** The fields as `new()` leaves them: all zero. */
  const Zeroed := AllocatorState(0, 0, 0, 0, 0, 0, 0, 0)

  /**
   * What holds of the fields in every state the allocator can reach from
   * `new()` or `init`: all fields fit a `usize`; the byte frontier is at or
   * above `start`; the ceiling lies between `start` and the floor and is
   * `start` plus whole pages; the floor stays at `end`; the page frontier is
   * at or below `end`; a zero counter means its frontier is reset.
   * Not included, because the code breaks them: `bNext <= bEnd` and
   * `pEnd <= pNext` (see the counterexample lemmas below).
   */
  ghost predicate Inv(s: AllocatorState, pageSize: nat)
  {
    0 < pageSize < WORD
    && s.end < WORD && s.bNext < WORD && s.bAlloc < WORD && s.pAlloc < WORD
    && s.start <= s.bNext
    && s.start <= s.bEnd <= s.pEnd
    && (s.bEnd - s.start) % pageSize == 0
    && s.pEnd == s.end
    && s.pNext <= s.end
    && (s.bAlloc == 0 ==> s.bNext == s.start)
    && (s.pAlloc == 0 ==> s.pNext == s.end)
  }

  // ---------------------------------------------------------------------
  // Operations on a snapshot
  // ---------------------------------------------------------------------

  /** `init(start, size)`. */
  function InitState(start: nat, size: nat): (s: AllocatorState)
    requires start + size < WORD
    ensures s.start == start && s.end == start + size && s.bNext == s.bEnd == start
    ensures s.pNext == s.pEnd == start + size && s.bAlloc == s.pAlloc == 0
  {
    AllocatorState(start, start + size, start, 0, start, 0, start + size, start + size)
  }

  /** `increase_bytes`: raise the ceiling by exactly one page unless that passes the floor. */
  function IncreaseBytesStep(s: AllocatorState, pageSize: nat): (r: (AllocatorState, AllocResult<()>))
    requires s.bEnd + pageSize < WORD
    ensures r.1.Ok? <==> s.bEnd + pageSize <= s.pEnd
    ensures r.1.Ok? ==> r.0 == s.(bEnd := s.bEnd + pageSize)
    ensures r.1.Err? ==> r.1.error == NoMemory && r.0 == s
  {
    var end := s.bEnd + pageSize;
    if end > s.pEnd then (s, Err(NoMemory)) else (s.(bEnd := end), Ok(()))
  }

  /** `increase_pages`: lower the floor by `pageSize * total_pages()` unless that passes the ceiling. */
  function IncreasePagesStep(s: AllocatorState, pageSize: nat): (r: (AllocatorState, AllocResult<()>))
    requires pageSize > 0 && s.pEnd <= s.end && pageSize * s.TotalPages(pageSize) <= s.pEnd
    ensures r.1.Ok? <==> s.bEnd <= s.pEnd - pageSize * s.TotalPages(pageSize)
    ensures r.1.Ok? ==> r.0 == s.(pEnd := s.pEnd - pageSize * s.TotalPages(pageSize)) && s.bEnd <= r.0.pEnd <= s.pEnd
    ensures r.1.Err? ==> r.1.error == NoMemory && r.0 == s
  {
    var end := s.pEnd - pageSize * s.TotalPages(pageSize);
    if end < s.bEnd then (s, Err(NoMemory)) else (s.(pEnd := end), Ok(()))
  }

  /** True when the byte request needs the ceiling to grow and it cannot. */
  predicate AllocFails(s: AllocatorState, pageSize: nat, size: nat, align: nat)
    requires IsPow2(align) && s.bNext + align < WORD
  {
    AlignUp(s.bNext, align) + size >= s.bEnd && s.bEnd + pageSize > s.pEnd
  }

  /**
   * The caller's side of `alloc(size, align)`: `align` is a power of two (as a
   * `Layout` guarantees) and no `usize` arithmetic of the call overflows, nor
   * is a null pointer returned.
   */
  predicate AllocAllowed(s: AllocatorState, pageSize: nat, size: nat, align: nat)
  {
    IsPow2(align) && s.bNext + align < WORD
    && AlignUp(s.bNext, align) + size < WORD
    && (AlignUp(s.bNext, align) + size >= s.bEnd ==> s.bEnd + pageSize < WORD)
    && (!AllocFails(s, pageSize, size, align) ==> s.bAlloc + 1 < WORD && AlignUp(s.bNext, align) != 0)
  }

  /**
   * `alloc(size, align)`. On success the address is the first multiple of
   * `align` at or above the old byte frontier, the frontier moves to its end,
   * the ceiling grows by one page exactly when the end reaches it, and one
   * more allocation is live. It fails with `NoMemory`, changing nothing,
   * exactly when the ceiling needs to grow and one more page would pass the
   * floor.
   */
  function AllocStep(s: AllocatorState, pageSize: nat, size: nat, align: nat): (r: (AllocatorState, AllocResult<nat>))
    requires Inv(s, pageSize) && AllocAllowed(s, pageSize, size, align)
    ensures r.1.Err? <==> AllocFails(s, pageSize, size, align)
    ensures r.1.Err? ==> r.1.error == NoMemory && r.0 == s
    ensures r.1.Ok? ==>
      var a := r.1.value;
      a % align == 0 && s.bNext <= a < s.bNext + align
      && r.0.bNext == a + size && r.0.bAlloc == s.bAlloc + 1
      && r.0.bEnd == (if a + size >= s.bEnd then s.bEnd + pageSize else s.bEnd)
      && r.0 == s.(bNext := r.0.bNext, bAlloc := r.0.bAlloc, bEnd := r.0.bEnd)
  {
    var allocStart := AlignUp(s.bNext, align);
    var allocEnd := allocStart + size;
    if allocEnd >= s.bEnd && IncreaseBytesStep(s, pageSize).1.Err? then
      (s, Err(NoMemory))
    else
      var s1 := if allocEnd >= s.bEnd then IncreaseBytesStep(s, pageSize).0 else s;
      (s1.(bAlloc := s1.bAlloc + 1, bNext := allocEnd), Ok(allocStart))
  }

  /**
   * `dealloc`: one byte allocation fewer; when none is left the byte frontier
   * goes back to `start`. The ceiling is never retracted.
   */
  function DeallocStep(s: AllocatorState): (r: AllocatorState)
    requires s.bAlloc > 0
    ensures r.bAlloc == s.bAlloc - 1
    ensures r.bNext == (if r.bAlloc == 0 then s.start else s.bNext)
    ensures r == s.(bAlloc := r.bAlloc, bNext := r.bNext)
  {
    var s1 := s.(bAlloc := s.bAlloc - 1);
    if s1.bAlloc == 0 then s1.(bNext := s1.start) else s1
  }

  /**
   * The caller's side of `alloc_pages(numPages, alignPow2)`: when the
   * alignment passes the page-size check, the alignment in page units is a
   * power of two, subtracting `numPages` pages from the frontier does not go
   * below zero, and the counter does not overflow.
   */
  predicate AllocPagesAllowed(s: AllocatorState, pageSize: nat, numPages: nat, alignPow2: nat)
    requires pageSize > 0
  {
    alignPow2 % pageSize == 0 ==>
      IsPow2(alignPow2 / pageSize) && alignPow2 / pageSize < WORD
      && numPages * pageSize <= s.pNext && s.pAlloc + 1 < WORD
  }

  /**
   * `alloc_pages(numPages, alignPow2)`. An alignment that is not a multiple
   * of the page size gives `InvalidParam` and changes nothing. Otherwise the
   * address is `pNext - numPages * pageSize` rounded down to a multiple of
   * `alignPow2 / pageSize` (the code divides the byte alignment by the page
   * size before aligning a byte address), the page frontier moves there and
   * one more page allocation is live.
   */
  function AllocPagesStep(s: AllocatorState, pageSize: nat, numPages: nat, alignPow2: nat): (r: (AllocatorState, AllocResult<nat>))
    requires Inv(s, pageSize) && AllocPagesAllowed(s, pageSize, numPages, alignPow2)
    ensures alignPow2 % pageSize != 0 ==> r == (s, Err(InvalidParam))
    ensures alignPow2 % pageSize == 0 ==> r.1.Ok?
    ensures r.1.Ok? ==>
      var a, want := r.1.value, s.pNext - numPages * pageSize;
      a % (alignPow2 / pageSize) == 0 && a <= want && want - a < alignPow2 / pageSize
      && r.0 == s.(pNext := a, pAlloc := s.pAlloc + 1)
  {
    if alignPow2 % pageSize != 0 then
      (s, Err(InvalidParam))
    else
      IncreasePagesIsNoop(s, pageSize);
      var align := alignPow2 / pageSize;
      var allocStart := AlignDown(s.pNext - numPages * pageSize, align);
      if allocStart <= s.pEnd && IncreasePagesStep(s, pageSize).1.Err? then
        (s, Err(NoMemory))
      else
        var s1 := if allocStart <= s.pEnd then IncreasePagesStep(s, pageSize).0 else s;
        (s1.(pAlloc := s1.pAlloc + 1, pNext := allocStart), Ok(allocStart))
  }

  /** The successful case of `AllocPagesStep`, spelt out for the imperative code. */
  lemma AllocPagesStepOk(s: AllocatorState, pageSize: nat, numPages: nat, alignPow2: nat)
    requires Inv(s, pageSize) && AllocPagesAllowed(s, pageSize, numPages, alignPow2)
    requires alignPow2 % pageSize == 0
    ensures var a := AlignDown(s.pNext - numPages * pageSize, alignPow2 / pageSize);
      AllocPagesStep(s, pageSize, numPages, alignPow2) == (s.(pAlloc := s.pAlloc + 1, pNext := a), Ok(a))
  {
    IncreasePagesIsNoop(s, pageSize);
  }

  /**
   * `dealloc_pages`: one page allocation fewer; when none is left the page
   * frontier goes back to `end`. The floor is never moved back up.
   */
  function DeallocPagesStep(s: AllocatorState): (r: AllocatorState)
    requires s.pAlloc > 0
    ensures r.pAlloc == s.pAlloc - 1
    ensures r.pNext == (if r.pAlloc == 0 then s.end else s.pNext)
    ensures r == s.(pAlloc := r.pAlloc, pNext := r.pNext)
  {
    var s1 := s.(pAlloc := s.pAlloc - 1);
    if s1.pAlloc == 0 then s1.(pNext := s1.end) else s1
  }

  // ---------------------------------------------------------------------
  // Invariants of the operations
  // ---------------------------------------------------------------------

  /** The all-zero fields of `new()` satisfy `Inv`. */
  lemma ZeroedInv(pageSize: nat)
    requires 0 < pageSize < WORD
    ensures Inv(Zeroed, pageSize)
  {
    ModUnique(0, pageSize, 0, 0);
  }

  /** `init` produces a state satisfying `Inv` in which all six accounting getters report zero. */
  lemma InitEstablishesInv(start: nat, size: nat, pageSize: nat)
    requires start + size < WORD && 0 < pageSize < WORD
    ensures var s := InitState(start, size);
      Inv(s, pageSize)
      && s.TotalBytes() == s.UsedBytes() == s.AvailableBytes() == 0
      && s.TotalPages(pageSize) == s.UsedPages(pageSize) == s.AvailablePages(pageSize) == 0
  {
    ModUnique(0, pageSize, 0, 0);
  }

  /** With the floor at `end`, `increase_pages` steps by zero bytes: it always succeeds and changes nothing. */
  lemma IncreasePagesIsNoop(s: AllocatorState, pageSize: nat)
    requires Inv(s, pageSize)
    ensures s.TotalPages(pageSize) == 0 && pageSize * s.TotalPages(pageSize) == 0
    ensures IncreasePagesStep(s, pageSize) == (s, Ok(()))
  {
  }

  /** `alloc` keeps `Inv`, never lowers the ceiling, and leaves the page side alone. */
  lemma AllocKeepsInv(s: AllocatorState, pageSize: nat, size: nat, align: nat)
    requires Inv(s, pageSize) && AllocAllowed(s, pageSize, size, align)
    ensures var t := AllocStep(s, pageSize, size, align).0;
      Inv(t, pageSize) && s.bEnd <= t.bEnd
      && t.start == s.start && t.end == s.end
      && t.pNext == s.pNext && t.pEnd == s.pEnd && t.pAlloc == s.pAlloc
  {
    var t := AllocStep(s, pageSize, size, align).0;
    if t.bEnd != s.bEnd {
      OnePageMore(s.bEnd - s.start, pageSize);
    }
  }

  /** A multiple of the page size plus one page is a multiple of the page size. */
  lemma OnePageMore(d: nat, pageSize: nat)
    requires pageSize > 0 && d % pageSize == 0
    ensures (d + pageSize) % pageSize == 0
  {
    var k := d / pageSize;
    assert d + pageSize == pageSize * (k + 1);
    ModUnique(d + pageSize, pageSize, k + 1, 0);
  }

  /** `alloc_pages` keeps `Inv` and leaves the byte side and the floor alone. */
  lemma AllocPagesKeepsInv(s: AllocatorState, pageSize: nat, numPages: nat, alignPow2: nat)
    requires Inv(s, pageSize) && AllocPagesAllowed(s, pageSize, numPages, alignPow2)
    ensures var t := AllocPagesStep(s, pageSize, numPages, alignPow2).0;
      Inv(t, pageSize) && t.pEnd == s.pEnd
      && t.start == s.start && t.end == s.end
      && t.bNext == s.bNext && t.bEnd == s.bEnd && t.bAlloc == s.bAlloc
  {
  }

  /** Page allocation never reports `NoMemory` from a reachable state. */
  lemma AllocPagesNeverNoMemory(s: AllocatorState, pageSize: nat, numPages: nat, alignPow2: nat)
    requires Inv(s, pageSize) && AllocPagesAllowed(s, pageSize, numPages, alignPow2)
    ensures AllocPagesStep(s, pageSize, numPages, alignPow2).1 != Err(NoMemory)
  {
  }

  // ---------------------------------------------------------------------
  // Any sequence of calls
  // ---------------------------------------------------------------------

  /** One call on the allocator after `init`. */
  datatype Op =
    | Alloc(size: nat, align: nat)
    | Dealloc
    | AllocPages(numPages: nat, alignPow2: nat)
    | DeallocPages
    | AddMemory(memStart: nat, memSize: nat)

  /** The caller's side of one call: the operation's own precondition. */
  predicate Allowed(s: AllocatorState, pageSize: nat, op: Op)
    requires pageSize > 0
  {
    match op
    case Alloc(size, align) => AllocAllowed(s, pageSize, size, align)
    case Dealloc => s.bAlloc > 0
    case AllocPages(n, align) => AllocPagesAllowed(s, pageSize, n, align)
    case DeallocPages => s.pAlloc > 0
    case AddMemory(_, _) => true
  }

  /** The state after one call. `add_memory` changes nothing. */
  function Apply(s: AllocatorState, pageSize: nat, op: Op): (t: AllocatorState)
    requires Inv(s, pageSize) && Allowed(s, pageSize, op)
    ensures Inv(t, pageSize)
  {
    match op
    case Alloc(size, align) =>
      AllocKeepsInv(s, pageSize, size, align);
      AllocStep(s, pageSize, size, align).0
    case Dealloc => DeallocStep(s)
    case AllocPages(n, align) =>
      AllocPagesKeepsInv(s, pageSize, n, align);
      AllocPagesStep(s, pageSize, n, align).0
    case DeallocPages => DeallocPagesStep(s)
    case AddMemory(_, _) => s
  }

  /** Every call of `ops`, applied in order from `s`, starts from a reachable state and meets its precondition. */
  ghost predicate Admissible(s: AllocatorState, pageSize: nat, ops: seq<Op>)
    decreases |ops|
  {
    ops == []
    || (Inv(s, pageSize) && Allowed(s, pageSize, ops[0])
        && Admissible(Apply(s, pageSize, ops[0]), pageSize, ops[1..]))
  }

  /** The state after the calls `ops`, in order. */
  ghost function Run(s: AllocatorState, pageSize: nat, ops: seq<Op>): AllocatorState
    requires Admissible(s, pageSize, ops)
    decreases |ops|
  {
    if ops == [] then s else Run(Apply(s, pageSize, ops[0]), pageSize, ops[1..])
  }

  /**
   * Across any admissible sequence of calls: `Inv` holds throughout, the
   * region never changes, the byte ceiling never decreases, and the page
   * floor never moves.
   */
  lemma {:induction false} RunKeepsInv(s: AllocatorState, pageSize: nat, ops: seq<Op>)
    requires Inv(s, pageSize) && Admissible(s, pageSize, ops)
    ensures var t := Run(s, pageSize, ops);
      Inv(t, pageSize) && t.start == s.start && t.end == s.end
      && s.bEnd <= t.bEnd && t.pEnd == s.pEnd
    decreases |ops|
  {
    if ops != [] {
      match ops[0] {
        case Alloc(size, align) => AllocKeepsInv(s, pageSize, size, align);
        case AllocPages(n, align) => AllocPagesKeepsInv(s, pageSize, n, align);
        case _ =>
      }
      RunKeepsInv(Apply(s, pageSize, ops[0]), pageSize, ops[1..]);
    }
  }

  /**
   * After `init(start, size)` and any admissible calls, the page floor is
   * still `start + size`, so `alloc_pages` can never report `NoMemory`.
   */
  lemma PageFloorFixedAfterInit(start: nat, size: nat, pageSize: nat, ops: seq<Op>, numPages: nat, alignPow2: nat)
    requires start + size < WORD && 0 < pageSize < WORD
    requires Admissible(InitState(start, size), pageSize, ops)
    ensures var t := Run(InitState(start, size), pageSize, ops);
      Inv(t, pageSize) && t.pEnd == start + size && t.TotalPages(pageSize) == 0
      && (AllocPagesAllowed(t, pageSize, numPages, alignPow2) ==>
            AllocPagesStep(t, pageSize, numPages, alignPow2).1 != Err(NoMemory))
  {
    InitEstablishesInv(start, size, pageSize);
    RunKeepsInv(InitState(start, size), pageSize, ops);
  }

  /**
   * The zero-count reset: when `dealloc` releases the last live byte
   * allocation, the next `alloc` that succeeds returns the first multiple of
   * its alignment at or above `start`.
   */
  lemma ByteZoneRestartsAtStart(s: AllocatorState, pageSize: nat, size: nat, align: nat)
    requires Inv(s, pageSize) && s.bAlloc == 1
    requires Inv(DeallocStep(s), pageSize) && AllocAllowed(DeallocStep(s), pageSize, size, align)
    ensures var r := AllocStep(DeallocStep(s), pageSize, size, align).1;
      r.Ok? ==> r.value == AlignUp(s.start, align)
  {
    var t := DeallocStep(s);
    var r := AllocStep(t, pageSize, size, align).1;
    if r.Ok? {
      AlignUpLeast(s.start, align, r.value);
    }
  }

  /**
   * The zero-count reset on the page side: when `dealloc_pages` releases the
   * last live page allocation, the next `alloc_pages` with a valid alignment
   * returns `end - numPages * pageSize` rounded down to `alignPow2 / pageSize`.
   */
  lemma PageZoneRestartsAtEnd(s: AllocatorState, pageSize: nat, numPages: nat, alignPow2: nat)
    requires Inv(s, pageSize) && s.pAlloc == 1
    requires Inv(DeallocPagesStep(s), pageSize) && AllocPagesAllowed(DeallocPagesStep(s), pageSize, numPages, alignPow2)
    requires alignPow2 % pageSize == 0
    ensures numPages * pageSize <= s.end
    ensures AllocPagesStep(DeallocPagesStep(s), pageSize, numPages, alignPow2).1
      == Ok(AlignDown(s.end - numPages * pageSize, alignPow2 / pageSize))
  {
    AllocPagesStepOk(DeallocPagesStep(s), pageSize, numPages, alignPow2);
  }

  /**
   * The accounting after a successful `alloc`: `used_bytes` grows by the
   * padding up to the alignment plus the size, `total_bytes` never shrinks,
   * and the page getters are unchanged.
   */
  lemma AllocAccounting(s: AllocatorState, pageSize: nat, size: nat, align: nat)
    requires Inv(s, pageSize) && AllocAllowed(s, pageSize, size, align)
    requires AllocStep(s, pageSize, size, align).1.Ok?
    ensures var (t, r) := AllocStep(s, pageSize, size, align);
      Inv(t, pageSize)
      && t.UsedBytes() == s.UsedBytes() + (r.value - s.bNext) + size
      && s.TotalBytes() <= t.TotalBytes()
      && t.UsedPages(pageSize) == s.UsedPages(pageSize)
      && t.TotalPages(pageSize) == s.TotalPages(pageSize)
  {
    AllocKeepsInv(s, pageSize, size, align);
  }

  /** When the last byte allocation is released, `used_bytes` is zero again. */
  lemma DeallocAccounting(s: AllocatorState, pageSize: nat)
    requires Inv(s, pageSize) && s.bAlloc > 0
    ensures var t := DeallocStep(s);
      Inv(t, pageSize) && t.TotalBytes() == s.TotalBytes()
      && (s.bAlloc == 1 ==> t.UsedBytes() == 0)
      && (s.bAlloc > 1 ==> t.UsedBytes() == s.UsedBytes())
  {
  }

  /** Adding `n` whole pages to `x` adds `n` to the page count. */
  lemma DivAddPages(x: nat, n: nat, pageSize: nat)
    requires pageSize > 0
    ensures (x + n * pageSize) / pageSize == x / pageSize + n
  {
    var q, r := x / pageSize, x % pageSize;
    assert x + n * pageSize == pageSize * (q + n) + r;
    ModUnique(x + n * pageSize, pageSize, q + n, r);
    var d := (x + n * pageSize) / pageSize;
    assert pageSize * d == pageSize * (q + n);
    if d < q + n {
      MulLe(pageSize, d + 1, q + n);
    } else if d > q + n {
      MulLe(pageSize, q + n + 1, d);
    }
  }

  /** Division by the page size is monotone. */
  lemma DivMonotone(x: nat, y: nat, pageSize: nat)
    requires pageSize > 0 && x <= y
    ensures x / pageSize <= y / pageSize
  {
    var qx, qy := x / pageSize, y / pageSize;
    if qx > qy {
      MulLe(pageSize, qy + 1, qx);
    }
  }

  /**
   * The accounting after a successful `alloc_pages`: `used_pages` grows by at
   * least the number of pages requested, and the byte getters and
   * `total_pages` are unchanged.
   */
  lemma AllocPagesAccounting(s: AllocatorState, pageSize: nat, numPages: nat, alignPow2: nat)
    requires Inv(s, pageSize) && AllocPagesAllowed(s, pageSize, numPages, alignPow2)
    requires AllocPagesStep(s, pageSize, numPages, alignPow2).1.Ok?
    ensures var t := AllocPagesStep(s, pageSize, numPages, alignPow2).0;
      Inv(t, pageSize)
      && t.UsedPages(pageSize) >= s.UsedPages(pageSize) + numPages
      && t.TotalPages(pageSize) == s.TotalPages(pageSize)
      && t.UsedBytes() == s.UsedBytes() && t.TotalBytes() == s.TotalBytes()
  {
    AllocPagesKeepsInv(s, pageSize, numPages, alignPow2);
    var t := AllocPagesStep(s, pageSize, numPages, alignPow2).0;
    var x := s.end - s.pNext;
    DivAddPages(x, numPages, pageSize);
    DivMonotone(x + numPages * pageSize, s.end - t.pNext, pageSize);
  }

  // ---------------------------------------------------------------------
  // What the code does not keep
  // ---------------------------------------------------------------------

  /**
   * A byte request that reaches more than one page past the ceiling still
   * succeeds when one page of room is left: the ceiling grows by a single
   * page and the byte frontier ends up above it, and above `end` when the
   * request reaches past the region. With 4096-byte pages, `init(4096, 8192)`
   * then `alloc(65536, 8)` returns 4096 and leaves the frontier at 69632, the
   * ceiling at 8192 and `end` at 12288.
   */
  lemma ByteCeilingOverrun(s: AllocatorState, pageSize: nat, size: nat, align: nat)
    requires Inv(s, pageSize) && AllocAllowed(s, pageSize, size, align)
    requires s.bEnd + pageSize <= s.pEnd
    requires AlignUp(s.bNext, align) + size > s.bEnd + pageSize
    ensures var (t, r) := AllocStep(s, pageSize, size, align);
      r == Ok(AlignUp(s.bNext, align)) && t.bEnd == s.bEnd + pageSize && t.bNext > t.bEnd
      && (AlignUp(s.bNext, align) + size > s.end ==> t.bNext > t.end)
  {
  }

  /**
   * Every page allocation of at least one page leaves the page frontier below
   * the floor, which stays at `end`; from then on `available_pages` would
   * underflow. With 4096-byte pages, `init(4096, 8192)` then
   * `alloc_pages(1, 4096)` puts the frontier at 8192 under the floor 12288.
   */
  lemma PageFrontierBelowFloor(s: AllocatorState, pageSize: nat, numPages: nat, alignPow2: nat)
    requires Inv(s, pageSize) && AllocPagesAllowed(s, pageSize, numPages, alignPow2)
    requires alignPow2 % pageSize == 0 && numPages > 0
    ensures var t := AllocPagesStep(s, pageSize, numPages, alignPow2).0;
      t.pNext < t.pEnd == s.end
  {
    MulAtLeast(pageSize, numPages);
    assert numPages * pageSize >= pageSize;
  }

  /**
   * Nothing keeps the page zone out of the byte zone: a page request that
   * reaches below the byte ceiling succeeds and returns an address below
   * the ceiling. With 4096-byte pages, `init(4096, 8192)`,
   * `alloc(8, 8)` and `alloc_pages(2, 4096)` both return address 4096.
   */
  lemma PagesOverlapBytes(s: AllocatorState, pageSize: nat, numPages: nat, alignPow2: nat)
    requires Inv(s, pageSize) && AllocPagesAllowed(s, pageSize, numPages, alignPow2)
    requires alignPow2 % pageSize == 0
    requires s.pNext - numPages * pageSize < s.bEnd
    ensures var r := AllocPagesStep(s, pageSize, numPages, alignPow2).1;
      r.Ok? && r.value < s.bEnd
  {
  }

  /**
   * Nothing keeps the page zone inside the region either: a page request
   * that reaches below `start` succeeds and returns an address below
   * `start`.
   */
  lemma PagesLeaveRegion(s: AllocatorState, pageSize: nat, numPages: nat, alignPow2: nat)
    requires Inv(s, pageSize) && AllocPagesAllowed(s, pageSize, numPages, alignPow2)
    requires alignPow2 % pageSize == 0
    requires s.pNext - numPages * pageSize < s.start
    ensures var r := AllocPagesStep(s, pageSize, numPages, alignPow2).1;
      r.Ok? && r.value < s.start
  {
  }

  /** With 4096-byte pages, `init(4096, 8192)` then `alloc_pages(3, 4096)` returns address 0. */
  lemma PagesLeaveRegionExample()
    ensures Inv(InitState(4096, 8192), 4096) && AllocPagesAllowed(InitState(4096, 8192), 4096, 3, 4096)
    ensures AllocPagesStep(InitState(4096, 8192), 4096, 3, 4096).1 == Ok(0)
  {
    InitEstablishesInv(4096, 8192, 4096);
    assert IsPow2(1);
  }

  /**
   * `alloc_pages` aligns to `alignPow2 / pageSize` bytes rather than to
   * `alignPow2`: when `pNext - numPages * pageSize` is a multiple of the
   * former but not of the latter, that address is returned as it is. With
   * 4096-byte pages, `init(4096, 12288)` then `alloc_pages(1, 8192)` returns
   * 12288, which is not a multiple of 8192.
   */
  lemma PageAlignmentIgnored(s: AllocatorState, pageSize: nat, numPages: nat, alignPow2: nat)
    requires Inv(s, pageSize) && AllocPagesAllowed(s, pageSize, numPages, alignPow2)
    requires alignPow2 % pageSize == 0
    requires (s.pNext - numPages * pageSize) % (alignPow2 / pageSize) == 0
    requires (s.pNext - numPages * pageSize) % alignPow2 != 0
    ensures var r := AllocPagesStep(s, pageSize, numPages, alignPow2).1;
      r == Ok(s.pNext - numPages * pageSize) && r.value % alignPow2 != 0
  {
    var want := s.pNext - numPages * pageSize;
    AlignDownGreatest(want, alignPow2 / pageSize, want);
  }

  // ---------------------------------------------------------------------
  // Growth rules that keep the zones apart
  // ---------------------------------------------------------------------

  /**
   * The layout the allocator is meant to keep: byte zone `[start, bEnd)`,
   * page zone `[pEnd, end)`, each frontier inside its own zone, and each
   * counter at zero only with its frontier reset.
   */
  ghost predicate ZonesApart(s: AllocatorState, pageSize: nat)
  {
    0 < pageSize < WORD
    && s.end < WORD && s.bAlloc < WORD && s.pAlloc < WORD
    && s.start <= s.bNext <= s.bEnd <= s.pEnd <= s.pNext <= s.end
    && (s.bAlloc == 0 ==> s.bNext == s.start)
    && (s.pAlloc == 0 ==> s.pNext == s.end)
  }

  /** Rounding `d` up to whole pages gives a multiple of the page size that covers `d` with less than a page to spare. */
  lemma WholePagesCover(d: nat, pageSize: nat)
    requires pageSize > 0
    ensures var c := (d + pageSize - 1) / pageSize * pageSize;
      d <= c < d + pageSize && c % pageSize == 0
  {
    var q, r := (d + pageSize - 1) / pageSize, (d + pageSize - 1) % pageSize;
    assert d + pageSize - 1 == q * pageSize + r;
    ModUnique(q * pageSize, pageSize, q, 0);
  }

  /**
   * The ceiling a byte request ending at `allocEnd` needs: `bEnd` itself when
   * the request fits under it, otherwise `bEnd` raised by the fewest whole
   * pages that reach `allocEnd`.
   */
  function CoverCeiling(bEnd: nat, allocEnd: nat, pageSize: nat): (c: nat)
    requires pageSize > 0
    ensures bEnd <= c && allocEnd <= c && (c - bEnd) % pageSize == 0
    ensures allocEnd <= bEnd ==> c == bEnd
    ensures allocEnd > bEnd ==> c - allocEnd < pageSize
  {
    if allocEnd <= bEnd then
      ModUnique(0, pageSize, 0, 0);
      bEnd
    else
      var d := allocEnd - bEnd;
      WholePagesCover(d, pageSize);
      bEnd + (d + pageSize - 1) / pageSize * pageSize
  }

  /**
   * `alloc` with the ceiling raised by as many whole pages as the request
   * needs (not one page whatever the size). It succeeds exactly when that
   * ceiling stays at or below the floor, returning `align_up(bNext, align)`
   * as the code does; the allocation then ends within the byte zone and
   * `ZonesApart` is kept.
   */
  function AllocFixed(s: AllocatorState, pageSize: nat, size: nat, align: nat): (r: (AllocatorState, AllocResult<nat>))
    requires ZonesApart(s, pageSize)
    requires IsPow2(align) && s.bNext + align < WORD && AlignUp(s.bNext, align) + size < WORD && s.bAlloc + 1 < WORD
    ensures ZonesApart(r.0, pageSize)
    ensures r.1.Ok? <==> CoverCeiling(s.bEnd, AlignUp(s.bNext, align) + size, pageSize) <= s.pEnd
    ensures r.1.Err? ==> r.1.error == NoMemory && r.0 == s
    ensures r.1.Ok? ==>
      var a := AlignUp(s.bNext, align);
      r.1.value == a
      && r.0 == s.(bEnd := CoverCeiling(s.bEnd, a + size, pageSize), bAlloc := s.bAlloc + 1, bNext := a + size)
    ensures r.1.Ok? ==>
      r.1.value % align == 0 && s.bNext <= r.1.value && s.bEnd <= r.0.bEnd
      && r.1.value + size == r.0.bNext <= r.0.bEnd <= r.0.pEnd == s.pEnd
  {
    var allocStart := AlignUp(s.bNext, align);
    var allocEnd := allocStart + size;
    var end := CoverCeiling(s.bEnd, allocEnd, pageSize);
    if end > s.pEnd then (s, Err(NoMemory))
    else (s.(bEnd := end, bAlloc := s.bAlloc + 1, bNext := allocEnd), Ok(allocStart))
  }

  /**
   * `alloc_pages` aligning to `alignPow2` bytes and moving the floor down to
   * the new allocation. An alignment that is not a multiple of the page size
   * gives `InvalidParam`, as in the code. Otherwise it succeeds exactly when
   * the request fits below the page frontier and `alignPow2`-aligned start
   * is at or above the byte ceiling, returning that start; it fails with
   * `NoMemory` rather than cross the ceiling. The pages returned then always
   * lie above the byte zone and `ZonesApart` is kept.
   */
  function AllocPagesFixed(s: AllocatorState, pageSize: nat, numPages: nat, alignPow2: nat): (r: (AllocatorState, AllocResult<nat>))
    requires ZonesApart(s, pageSize) && IsPow2(alignPow2) && alignPow2 < WORD && s.pAlloc + 1 < WORD
    ensures ZonesApart(r.0, pageSize)
    ensures alignPow2 % pageSize != 0 ==> r == (s, Err(InvalidParam))
    ensures alignPow2 % pageSize == 0 ==>
      (r.1.Ok? <==> numPages * pageSize <= s.pNext && s.bEnd <= AlignDown(s.pNext - numPages * pageSize, alignPow2))
    ensures r.1.Err? ==> r.0 == s && r.1.error == (if alignPow2 % pageSize != 0 then InvalidParam else NoMemory)
    ensures r.1.Ok? ==>
      numPages * pageSize <= s.pNext && r.1.value == AlignDown(s.pNext - numPages * pageSize, alignPow2)
      && r.0 == s.(pEnd := if r.1.value < s.pEnd then r.1.value else s.pEnd, pAlloc := s.pAlloc + 1, pNext := r.1.value)
  {
    if alignPow2 % pageSize != 0 then
      (s, Err(InvalidParam))
    else if numPages * pageSize > s.pNext then
      (s, Err(NoMemory))
    else
      assert 0 <= numPages * pageSize <= s.pNext;
      var allocStart := AlignDown(s.pNext - numPages * pageSize, alignPow2);
      if allocStart < s.bEnd then (s, Err(NoMemory))
      else
        var floor := if allocStart < s.pEnd then allocStart else s.pEnd;
        (s.(pEnd := floor, pAlloc := s.pAlloc + 1, pNext := allocStart), Ok(allocStart))
  }

  /** `dealloc` and `dealloc_pages` as written keep `ZonesApart`. */
  lemma DeallocsKeepZonesApart(s: AllocatorState, pageSize: nat)
    requires ZonesApart(s, pageSize)
    ensures s.bAlloc > 0 ==> ZonesApart(DeallocStep(s), pageSize)
    ensures s.pAlloc > 0 ==> ZonesApart(DeallocPagesStep(s), pageSize)
  {
  }

  /**
   * With these growth rules a byte allocation and a page allocation made from
   * the same state never overlap: the bytes end at or below the new ceiling,
   * which is at or below the page floor, and the pages begin at or above the
   * ceiling.
   */
  lemma FixedAllocationsDisjoint(s: AllocatorState, pageSize: nat, size: nat, align: nat, numPages: nat, alignPow2: nat)
    requires ZonesApart(s, pageSize)
    requires IsPow2(align) && s.bNext + align < WORD && AlignUp(s.bNext, align) + size < WORD && s.bAlloc + 1 < WORD
    requires IsPow2(alignPow2) && alignPow2 < WORD && s.pAlloc + 1 < WORD
    ensures var (t, b) := AllocFixed(s, pageSize, size, align);
      ZonesApart(t, pageSize)
      && var p := AllocPagesFixed(t, pageSize, numPages, alignPow2).1;
      b.Ok? && p.Ok? ==> b.value + size <= p.value
  {
  }

  // ---------------------------------------------------------------------
  // The allocator object
  // ---------------------------------------------------------------------

  /** `EarlyAllocator<PAGE_SIZE>`: the page size is fixed when the object is made. */
  class EarlyAllocator {
    const pageSize: nat
    var start: nat
    var end: nat
    var bNext: nat
    var bAlloc: nat
    var bEnd: nat
    var pAlloc: nat
    var pNext: nat
    var pEnd: nat

    /** The fields, as a value. */
    function State(): AllocatorState
      reads this
    {
      AllocatorState(start, end, bNext, bAlloc, bEnd, pAlloc, pNext, pEnd)
    }

    ghost predicate Valid()
      reads this
    {
      Inv(State(), pageSize)
    }

    /** `new()`: every field zero. */
    constructor (pageSize: nat)
      requires 0 < pageSize < WORD
      ensures this.pageSize == pageSize && State() == Zeroed && Valid()
    {
      this.pageSize := pageSize;
      start, end, bNext, bAlloc, bEnd, pAlloc, pNext, pEnd := 0, 0, 0, 0, 0, 0, 0, 0;
      new;
      ZeroedInv(pageSize);
    }

    /** `init(start, size)`: both zones empty, both frontiers at the ends of the region. */
    method Init(start: nat, size: nat)
      requires 0 < pageSize < WORD && start + size < WORD
      modifies this
      ensures Valid() && State() == InitState(start, size)
    {
      this.start := start;
      this.end := start + size;
      bNext := start;
      pNext := start + size;
      bEnd := start;
      pEnd := start + size;
      bAlloc := 0;
      pAlloc := 0;
      InitEstablishesInv(start, size, pageSize);
    }

    /** `add_memory`: accepted and ignored. */
    method AddMemory(start: nat, size: nat) returns (r: AllocResult<()>)
      ensures r == Ok(())
    {
      r := Ok(());
    }

    /** `increase_bytes`. */
    method IncreaseBytes() returns (r: AllocResult<()>)
      requires bEnd + pageSize < WORD
      modifies this
      ensures (State(), r) == IncreaseBytesStep(old(State()), pageSize)
    {
      var end := bEnd + pageSize;
      if end > pEnd {
        r := Err(NoMemory);
      } else {
        bEnd := end;
        r := Ok(());
      }
    }

    /** `increase_pages`. */
    method IncreasePages() returns (r: AllocResult<()>)
      requires pageSize > 0 && pEnd <= end && pageSize * State().TotalPages(pageSize) <= pEnd
      modifies this
      ensures (State(), r) == IncreasePagesStep(old(State()), pageSize)
    {
      var end := pEnd - pageSize * TotalPages();
      if end < bEnd {
        r := Err(NoMemory);
      } else {
        pEnd := end;
        r := Ok(());
      }
    }

    /** `alloc(layout)`, with the layout's size and alignment. */
    method Alloc(size: nat, align: nat) returns (r: AllocResult<nat>)
      requires Valid() && AllocAllowed(State(), pageSize, size, align)
      modifies this
      ensures Valid()
      ensures (State(), r) == AllocStep(old(State()), pageSize, size, align)
    {
      AllocKeepsInv(State(), pageSize, size, align);
      var allocStart := AlignUp(bNext, align);
      var allocEnd := allocStart + size;
      if allocEnd >= bEnd {
        var grown := IncreaseBytes();
        if grown.Err? {
          return Err(NoMemory);
        }
      }
      bAlloc := bAlloc + 1;
      bNext := allocEnd;
      r := Ok(allocStart);
    }

    /** `dealloc(pos, layout)`: the address and layout are not used. */
    method Dealloc(pos: nat, size: nat, align: nat)
      requires Valid() && bAlloc > 0
      modifies this
      ensures Valid() && State() == DeallocStep(old(State()))
    {
      bAlloc := bAlloc - 1;
      if bAlloc == 0 {
        bNext := start;
      }
    }

    /** `alloc_pages(numPages, alignPow2)`. */
    method AllocPages(numPages: nat, alignPow2: nat) returns (r: AllocResult<nat>)
      requires Valid() && AllocPagesAllowed(State(), pageSize, numPages, alignPow2)
      modifies this
      ensures Valid()
      ensures (State(), r) == AllocPagesStep(old(State()), pageSize, numPages, alignPow2)
    {
      ghost var s0 := State();
      AllocPagesKeepsInv(s0, pageSize, numPages, alignPow2);
      IncreasePagesIsNoop(s0, pageSize);
      if alignPow2 % pageSize != 0 {
        return Err(InvalidParam);
      }
      AllocPagesStepOk(s0, pageSize, numPages, alignPow2);
      assert 0 <= numPages * pageSize <= pNext;
      var align := alignPow2 / pageSize;
      var allocStart := AlignDown(pNext - numPages * pageSize, align);
      if allocStart <= pEnd {
        var grown := IncreasePages();
        if grown.Err? {
          return Err(NoMemory);
        }
      }
      assert State() == s0;
      pAlloc := pAlloc + 1;
      pNext := allocStart;
      r := Ok(allocStart);
    }

    /** `dealloc_pages(pos, numPages)`: the address and count are not used. */
    method DeallocPages(pos: nat, numPages: nat)
      requires Valid() && pAlloc > 0
      modifies this
      ensures Valid() && State() == DeallocPagesStep(old(State()))
    {
      pAlloc := pAlloc - 1;
      if pAlloc == 0 {
        pNext := end;
      }
    }

    /** `total_bytes()`. */
    function TotalBytes(): (r: nat)
      reads this
      requires start <= bEnd
      ensures start + r == bEnd
    {
      State().TotalBytes()
    }

    /** `used_bytes()`. */
    function UsedBytes(): (r: nat)
      reads this
      requires start <= bNext
      ensures start + r == bNext
    {
      State().UsedBytes()
    }

    /** `available_bytes()`. */
    function AvailableBytes(): (r: nat)
      reads this
      requires bNext <= bEnd
      ensures bNext + r == bEnd
    {
      State().AvailableBytes()
    }

    /** `total_pages()`. */
    function TotalPages(): (r: nat)
      reads this
      requires pageSize > 0 && pEnd <= end
      ensures r * pageSize <= end - pEnd < r * pageSize + pageSize
    {
      State().TotalPages(pageSize)
    }

    /** `used_pages()`. */
    function UsedPages(): (r: nat)
      reads this
      requires pageSize > 0 && pNext <= end
      ensures r * pageSize <= end - pNext < r * pageSize + pageSize
    {
      State().UsedPages(pageSize)
    }

    /** `available_pages()`. */
    function AvailablePages(): (r: nat)
      reads this
      requires pageSize > 0 && pEnd <= pNext
      ensures r * pageSize <= pNext - pEnd < r * pageSize + pageSize
    {
      State().AvailablePages(pageSize)
    }
  }
}
