/**
 * The loaded program image: byte regions ("memory pools") mapped at fixed
 * addresses, and the first-match lookup over an ordered list of them.
 */
module Pools {
  import opened Wrappers
  import opened Bytes

  /** A file's length, as `tellg` reports it, fits in a signed 64-bit offset. */
  const MAX_FILE_LENGTH: int := 0x8000_0000_0000_0000

  /** What a lookup returns for an address no pool maps. */
  const UNMAPPED_VALUE: U64 := 0xdeadbeef

  /** A file mapped at `[start, end)`; the file's contents stand in for the
      open stream the pool reads from. */
  datatype MemoryPool = MemoryPool(path: string, start: U64, end: U64, bytes: seq<Byte>)
  {
    /** `end` is computed as `start + file length` in `uint64_t`, so it wraps. */
    ghost predicate Valid() {
      |bytes| < MAX_FILE_LENGTH && end == (start + |bytes|) % U64_LIMIT
    }

    predicate Inside(addr: int) {
      start <= addr < end
    }

    /** The asserted precondition of a read of `n` bytes at `addr`. */
    predicate ReadOk(addr: U64, n: nat) {
      1 <= n <= 8 && Inside(addr) && Inside((addr + n - 1) % U64_LIMIT)
    }

    /** An address is inside the pool exactly when it names a byte of the
        file; a pool whose end wrapped past 2^64 contains nothing. */
    lemma InsideIsFileOffset(addr: int)
      requires Valid()
      ensures Inside(addr) <==> start + |bytes| < U64_LIMIT && 0 <= addr - start < |bytes|
    {
      if start + |bytes| >= U64_LIMIT {
        assert end == start + |bytes| - U64_LIMIT;
      }
    }

    /** A read the assertions let through lies wholly inside the file: the
        wrapped second check cannot admit a read that runs off the end. */
    lemma ReadWithinFile(addr: U64, n: nat)
      requires Valid() && ReadOk(addr, n)
      ensures addr + n <= start + |bytes| < U64_LIMIT
    {
      InsideIsFileOffset(addr);
      var last := (addr + n - 1) % U64_LIMIT;
      InsideIsFileOffset(last);
      if addr + n - 1 >= U64_LIMIT {
        assert false;
      }
    }

    /** The `n` file bytes a read at `addr` covers. */
    function Window(addr: U64, n: nat): (w: seq<Byte>)
      requires Valid() && ReadOk(addr, n)
      ensures |w| == n
    {
      ReadWithinFile(addr, n);
      bytes[addr - start..addr - start + n]
    }

    /** `read(addr, n, isBigEndian)`: the window assembled in the requested
        byte order. */
    method Read(addr: U64, byteCnt: nat, isBigEndian: bool) returns (ret: U64)
      requires Valid() && ReadOk(addr, byteCnt)
      ensures isBigEndian ==> ret == BigEndian(Window(addr, byteCnt))
      ensures !isBigEndian ==> ret == LittleEndian(Window(addr, byteCnt))
      ensures ret < Pow256(byteCnt)
    {
      ghost var w := Window(addr, byteCnt);
      ReadWithinFile(addr, byteCnt);
      var acc: nat := 0;
      var i := 0;
      while i < byteCnt
        invariant 0 <= i <= byteCnt
        invariant isBigEndian ==> acc == BigEndian(w[..i])
        invariant !isBigEndian ==> acc == LittleEndian(w[byteCnt - i..])
        invariant acc < Pow256(i)
      {
        var pos := if isBigEndian then addr + i - start else addr + byteCnt - i - 1 - start;
        var b := bytes[pos];
        assert b == if isBigEndian then w[i] else w[byteCnt - i - 1];
        ShiftIn(w, i, acc, isBigEndian);
        // (ret << 8) | b in uint64_t: the shift drops nothing while acc < 256^7
        acc := (acc * 256) % U64_LIMIT + b;
        i := i + 1;
      }
      assert w[..byteCnt] == w && w[0..] == w;
      Pow256AtMostU64(byteCnt);
      ret := acc;
    }
  }

  /** One step of `read`'s loop: the byte shifted in extends the value
      assembled so far by one byte of the window. */
  lemma ShiftIn(w: seq<Byte>, i: nat, acc: nat, isBigEndian: bool)
    requires i < |w| <= 8 && acc < Pow256(i)
    requires isBigEndian ==> acc == BigEndian(w[..i])
    requires !isBigEndian ==> acc == LittleEndian(w[|w| - i..])
    ensures var next := (acc * 256) % U64_LIMIT + (if isBigEndian then w[i] else w[|w| - i - 1]);
      && (isBigEndian ==> next == BigEndian(w[..i + 1]))
      && (!isBigEndian ==> next == LittleEndian(w[|w| - (i + 1)..]))
      && next < Pow256(i + 1)
  {
    if isBigEndian {
      ShiftInByte(acc, i, w[i]);
      BigEndianSnoc(w, i);
    } else {
      ShiftInByte(acc, i, w[|w| - i - 1]);
      LittleEndianCons(w, |w| - i - 1);
    }
  }

  ghost predicate AllValid(pools: seq<MemoryPool>) {
    forall k :: 0 <= k < |pools| ==> pools[k].Valid()
  }

  /** The value of a read, in the requested byte order. */
  function ReadValue(pool: MemoryPool, addr: U64, n: nat, isBigEndian: bool): (v: U64)
    requires pool.Valid() && pool.ReadOk(addr, n)
    ensures v < Pow256(n)
  {
    Pow256AtMostU64(n);
    if isBigEndian then BigEndian(pool.Window(addr, n)) else LittleEndian(pool.Window(addr, n))
  }

  /** The index of the first pool, in list order, that contains `addr`. */
  function FindPool(pools: seq<MemoryPool>, addr: int): (r: Option<nat>)
    ensures r.Some? ==> r.value < |pools| && pools[r.value].Inside(addr)
    ensures r.Some? ==> forall j :: 0 <= j < r.value ==> !pools[j].Inside(addr)
    ensures r.None? ==> forall j :: 0 <= j < |pools| ==> !pools[j].Inside(addr)
  {
    if pools == [] then None
    else if pools[0].Inside(addr) then Some(0)
    else match FindPool(pools[1..], addr)
      case None => None
      case Some(k) => Some(k + 1)
  }

  /** The lookup of `n` bytes at `addr` passes the read's assertions:
      either no pool contains `addr`, or the first that does holds the
      whole read. */
  predicate LookupFits(pools: seq<MemoryPool>, addr: U64, n: nat) {
    match FindPool(pools, addr)
    case None => true
    case Some(k) => pools[k].ReadOk(addr, n)
  }

  /** The read from the first pool containing `addr`; `None` when no pool does. */
  function Lookup(pools: seq<MemoryPool>, addr: U64, n: nat, isBigEndian: bool): (r: Option<U64>)
    requires AllValid(pools) && LookupFits(pools, addr, n)
  {
    match FindPool(pools, addr)
    case None => None
    case Some(k) => Some(ReadValue(pools[k], addr, n, isBigEndian))
  }

  /** What the `uint64_t` overload of `getMemoryValue` returns. */
  function MemoryValue(pools: seq<MemoryPool>, addr: U64, n: nat, isBigEndian: bool): (v: U64)
    requires AllValid(pools) && LookupFits(pools, addr, n)
  {
    match Lookup(pools, addr, n, isBigEndian)
    case None => UNMAPPED_VALUE
    case Some(v) => v
  }

  /** The first pool containing an address is the one lookup finds. */
  lemma FindPoolFirst(pools: seq<MemoryPool>, a: int, k: nat)
    requires k < |pools| && pools[k].Inside(a) && forall j :: 0 <= j < k ==> !pools[j].Inside(a)
    ensures FindPool(pools, a) == Some(k)
  {
    var r := FindPool(pools, a);
    assert r.Some?;
    assert !(r.value < k) && !(k < r.value);
  }
  /** When the pools do not overlap at `addr`, first-match lookup finds the
      one pool that contains it, whatever the list order. */
  lemma FindPoolUnique(pools: seq<MemoryPool>, addr: int, k: nat)
    requires k < |pools| && pools[k].Inside(addr)
    requires forall j :: 0 <= j < |pools| && j != k ==> !pools[j].Inside(addr)
    ensures FindPool(pools, addr) == Some(k)
  {
  }

  /** A lookup finds a value exactly when some pool contains the address,
      and the value is the read from the first such pool. */
  lemma LookupFindsFirstPool(pools: seq<MemoryPool>, addr: U64, n: nat, isBigEndian: bool)
    requires AllValid(pools) && LookupFits(pools, addr, n)
    ensures Lookup(pools, addr, n, isBigEndian).Some? <==> exists k :: 0 <= k < |pools| && pools[k].Inside(addr)
    ensures forall k :: 0 <= k < |pools| && pools[k].Inside(addr) && (forall j :: 0 <= j < k ==> !pools[j].Inside(addr)) ==>
      pools[k].ReadOk(addr, n) && Lookup(pools, addr, n, isBigEndian) == Some(ReadValue(pools[k], addr, n, isBigEndian))
  {
    var r := FindPool(pools, addr);
    forall k | 0 <= k < |pools| && pools[k].Inside(addr) && (forall j :: 0 <= j < k ==> !pools[j].Inside(addr))
      ensures r == Some(k)
    {
    }
  }
}
