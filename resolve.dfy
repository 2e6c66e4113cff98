/**
 * The first loop of `runOnFunction`: calls to the memory-read helpers
 * `__ldl_mmu`, `__lds_mmu` and `__ldb_mmu` whose address is a constant are
 * evaluated against the memory pools, their uses rewritten to the value
 * read, and the calls queued for erasure.
 */
module Resolve {
  import opened Wrappers
  import opened Bytes
  import opened Pools
  import opened Ir
  import opened Erase

  /** The result width, in bits, of a load helper; `None` for any other callee. */
  function LoadBits(callee: string): (r: Option<nat>)
    ensures r.Some? ==> r.value in {8, 16, 32}
  {
    if callee == "__ldl_mmu" then Some(32)
    else if callee == "__lds_mmu" then Some(16)
    else if callee == "__ldb_mmu" then Some(8)
    else None
  }

  /** The checks made before the callee's name is looked at: a call with
      two arguments whose first is a constant. */
  predicate LoadShaped(ins: Instr) {
    ins.Call? && |ins.args| == 2 && ins.args[0].Const?
  }

  /** A call to a load helper with a constant address. */
  predicate IsLoadCall(ins: Instr) {
    LoadShaped(ins) && ins.callee.Some? && LoadBits(ins.callee.value).Some?
  }

  /** A load-helper call whose address some pool maps. */
  predicate Mapped(pools: seq<MemoryPool>, ins: Instr) {
    IsLoadCall(ins) && FindPool(pools, ins.args[0].value).Some?
  }

  /** An instruction the first loop passes over without change and without
      aborting: not load-shaped, or a direct call to another function, or a
      load helper whose address no pool maps. */
  predicate Settled(pools: seq<MemoryPool>, ins: Instr) {
    LoadShaped(ins) ==> ins.callee.Some? && !Mapped(pools, ins)
  }

  /** The typed overload of `getMemoryValue`: `bitWidth / 8` bytes from the
      first pool containing `addr`, as a constant of that width
      (`ConstantInt::get` keeps the low `bitWidth` bits); `None` (`NULL`)
      when no pool does. */
  function MemoryConstant(pools: seq<MemoryPool>, addr: U64, bitWidth: nat, isBigEndian: bool): (r: Option<Operand>)
    requires AllValid(pools) && LookupFits(pools, addr, bitWidth / 8)
  {
    match Lookup(pools, addr, bitWidth / 8, isBigEndian)
    case None => None
    case Some(v) => Some(Const(bitWidth, if v < Pow2(bitWidth) then v else v % Pow2(bitWidth)))
  }

  /** For whole-byte widths nothing is cut off: the constant is the value read. */
  lemma MemoryConstantIsRead(pools: seq<MemoryPool>, addr: U64, bitWidth: nat, isBigEndian: bool)
    requires AllValid(pools) && LookupFits(pools, addr, bitWidth / 8) && bitWidth % 8 == 0
    ensures MemoryConstant(pools, addr, bitWidth, isBigEndian).None? <==> FindPool(pools, addr).None?
    ensures FindPool(pools, addr).Some? ==>
      MemoryConstant(pools, addr, bitWidth, isBigEndian) ==
        Some(Const(bitWidth, ReadValue(pools[FindPool(pools, addr).value], addr, bitWidth / 8, isBigEndian)))
  {
    if FindPool(pools, addr).Some? {
      Pow2OfBytes(bitWidth / 8);
      assert 8 * (bitWidth / 8) == bitWidth;
    }
  }

  /** The state of the first loop: the body, rewritten so far, and the
      positions queued for erasure. */
  datatype Scan = Scan(body: seq<Instr>, erase: seq<nat>)

  /** One iteration of the first loop, at position `i`; `None` when the
      process aborts there (a `NULL` callee is dereferenced, or the read's
      assertions fail). */
  function ResolveAt(pools: seq<MemoryPool>, isBigEndian: bool, st: Scan, i: nat): (r: Option<Scan>)
    requires AllValid(pools) && i < |st.body|
    ensures r.Some? ==> |r.value.body| == |st.body|
  {
    var ins := st.body[i];
    if !LoadShaped(ins) then Some(st)
    else if ins.callee.None? then None
    else match LoadBits(ins.callee.value)
      case None => Some(st)
      case Some(bits) =>
        var addr := ins.args[0].value;
        if !LookupFits(pools, addr, bits / 8) then None
        else match MemoryConstant(pools, addr, bits, isBigEndian)
          case None => Some(st)
          case Some(c) => Some(Scan(ReplaceAllUsesWith(st.body, ins.id, c), st.erase + [i]))
  }

  /** The cases of one step, in terms of the pools: anything but a load
      helper with a constant address is passed over, as is a load whose
      address no pool maps; an indirect call aborts, as does a read that
      fails its assertions; a read that succeeds replaces every use of the
      call's result by the value read and queues the call. */
  lemma ResolveAtSpec(pools: seq<MemoryPool>, isBigEndian: bool, st: Scan, i: nat)
    requires AllValid(pools) && i < |st.body|
    ensures var ins := st.body[i];
      var r := ResolveAt(pools, isBigEndian, st, i);
      && (!LoadShaped(ins) ==> r == Some(st))
      && (LoadShaped(ins) && ins.callee.None? ==> r.None?)
      && (LoadShaped(ins) && ins.callee.Some? && !IsLoadCall(ins) ==> r == Some(st))
      && (IsLoadCall(ins) && FindPool(pools, ins.args[0].value).None? ==> r == Some(st))
      && (IsLoadCall(ins) && FindPool(pools, ins.args[0].value).Some? ==>
            var bits := LoadBits(ins.callee.value).value;
            var addr := ins.args[0].value;
            var pool := pools[FindPool(pools, addr).value];
            && (r.None? <==> !pool.ReadOk(addr, bits / 8))
            && (r.Some? ==> r.value == Scan(ReplaceAllUsesWith(st.body, ins.id, Const(bits, ReadValue(pool, addr, bits / 8, isBigEndian))), st.erase + [i])))
  {
    var ins := st.body[i];
    if IsLoadCall(ins) {
      var bits := LoadBits(ins.callee.value).value;
      if LookupFits(pools, ins.args[0].value, bits / 8) {
        MemoryConstantIsRead(pools, ins.args[0].value, bits, isBigEndian);
      }
    }
  }

  /** The first loop from position `i` to the end of the body. */
  function ResolveFrom(pools: seq<MemoryPool>, isBigEndian: bool, st: Scan, i: nat): (r: Option<Scan>)
    requires AllValid(pools) && i <= |st.body|
    ensures r.Some? ==> |r.value.body| == |st.body|
    decreases |st.body| - i
  {
    if i == |st.body| then Some(st)
    else match ResolveAt(pools, isBigEndian, st, i)
      case None => None
      case Some(next) => ResolveFrom(pools, isBigEndian, next, i + 1)
  }

  /** What the queue promises about the body it was built on: positions in
      increasing order, each holding a load-helper call to a mapped address
      whose result no instruction uses any more. */
  ghost predicate QueueResolved(pools: seq<MemoryPool>, st: Scan) {
    && StrictlyIncreasing(st.erase)
    && (forall j :: 0 <= j < |st.erase| ==> st.erase[j] < |st.body| && Mapped(pools, st.body[st.erase[j]]))
    && (forall j, k :: 0 <= j < |st.erase| && 0 <= k < |st.body| ==> !Uses(st.body[k], st.body[st.erase[j]].id))
  }

  /** `b` is `a` with some references replaced by constants. */
  ghost predicate Rewritten(a: seq<Instr>, b: seq<Instr>) {
    && |a| == |b|
    && (forall k :: 0 <= k < |a| ==> Skeleton(b[k]) == Skeleton(a[k]))
    && (forall k, y :: 0 <= k < |a| && Uses(b[k], y) ==> Uses(a[k], y))
    && (forall k, j :: 0 <= k < |a| && 0 <= j < |Operands(a[k])| && Operands(a[k])[j].Const? ==>
          j < |Operands(b[k])| && Operands(b[k])[j] == Operands(a[k])[j])
  }

  lemma RewrittenTransitive(a: seq<Instr>, b: seq<Instr>, c: seq<Instr>)
    requires Rewritten(a, b) && Rewritten(b, c)
    ensures Rewritten(a, c)
  {
  }

  lemma SkeletonKeepsLoad(pools: seq<MemoryPool>, a: Instr, b: Instr)
    requires Skeleton(a) == Skeleton(b) && LoadShaped(a)
    requires |Operands(b)| == |Operands(a)| && Operands(b)[0] == Operands(a)[0]
    ensures LoadShaped(b) && b.id == a.id && b.callee == a.callee && b.args[0] == a.args[0]
    ensures Mapped(pools, a) ==> Mapped(pools, b)
  {
  }

  lemma ReplaceRewrites(body: seq<Instr>, x: nat, c: Operand)
    requires c.Const?
    ensures Rewritten(body, ReplaceAllUsesWith(body, x, c))
  {
    ReplaceAllUsesWithSpec(body, x, c);
    forall k | 0 <= k < |body| {
      SubstInstrSpec(body[k], x, c);
    }
  }

  /** A step queues at most its own position, and a step that queues
      nothing changes nothing and found the instruction settled. */
  lemma ResolveAtStep(pools: seq<MemoryPool>, isBigEndian: bool, st: Scan, i: nat)
    requires AllValid(pools) && i < |st.body|
    requires ResolveAt(pools, isBigEndian, st, i).Some?
    ensures var next := ResolveAt(pools, isBigEndian, st, i).value;
      && (next.erase == st.erase || next.erase == st.erase + [i])
      && (next.erase == st.erase ==> next == st && Settled(pools, st.body[i]))
  {
    var ins := st.body[i];
    if LoadShaped(ins) && LoadBits(ins.callee.value).Some? {
      var bits := LoadBits(ins.callee.value).value;
      MemoryConstantIsRead(pools, ins.args[0].value, bits, isBigEndian);
    }
  }

  /** A step rewrites only references. */
  lemma ResolveAtRewrites(pools: seq<MemoryPool>, isBigEndian: bool, st: Scan, i: nat)
    requires AllValid(pools) && i < |st.body|
    requires ResolveAt(pools, isBigEndian, st, i).Some?
    ensures Rewritten(st.body, ResolveAt(pools, isBigEndian, st, i).value.body)
  {
    var next := ResolveAt(pools, isBigEndian, st, i).value;
    if next.body != st.body {
      var ins := st.body[i];
      var bits := LoadBits(ins.callee.value).value;
      var c := MemoryConstant(pools, ins.args[0].value, bits, isBigEndian).value;
      ReplaceRewrites(st.body, ins.id, c);
    }
  }

  /** Queueing a mapped load at `i` after replacing its uses keeps the
      queue's promise. */
  lemma QueueAfterReplace(pools: seq<MemoryPool>, st: Scan, i: nat, c: Operand)
    requires i < |st.body| && c.Const? && Mapped(pools, st.body[i])
    requires QueueResolved(pools, st) && forall j :: 0 <= j < |st.erase| ==> st.erase[j] < i
    ensures QueueResolved(pools, Scan(ReplaceAllUsesWith(st.body, st.body[i].id, c), st.erase + [i]))
  {
    var body := ReplaceAllUsesWith(st.body, st.body[i].id, c);
    var erase := st.erase + [i];
    ReplaceRewrites(st.body, st.body[i].id, c);
    ReplaceAllUsesWithSpec(st.body, st.body[i].id, c);
    forall j | 0 <= j < |erase|
      ensures erase[j] < |body| && Mapped(pools, body[erase[j]])
      ensures body[erase[j]].id == st.body[erase[j]].id
    {
      var q := erase[j];
      assert Mapped(pools, st.body[q]);
      assert Operands(st.body[q])[0].Const?;
      SkeletonKeepsLoad(pools, st.body[q], body[q]);
    }
  }

  /** A step keeps the queue's promise. */
  lemma ResolveAtQueue(pools: seq<MemoryPool>, isBigEndian: bool, st: Scan, i: nat)
    requires AllValid(pools) && i < |st.body|
    requires QueueResolved(pools, st) && forall j :: 0 <= j < |st.erase| ==> st.erase[j] < i
    requires ResolveAt(pools, isBigEndian, st, i).Some?
    ensures QueueResolved(pools, ResolveAt(pools, isBigEndian, st, i).value)
  {
    var next := ResolveAt(pools, isBigEndian, st, i).value;
    ResolveAtStep(pools, isBigEndian, st, i);
    if next.erase != st.erase {
      var ins := st.body[i];
      var bits := LoadBits(ins.callee.value).value;
      var c := MemoryConstant(pools, ins.args[0].value, bits, isBigEndian).value;
      MemoryConstantIsRead(pools, ins.args[0].value, bits, isBigEndian);
      QueueAfterReplace(pools, st, i, c);
    }
  }

  /** The queue only grows, by positions from `i` on. */
  lemma {:induction false} ResolveFromExtends(pools: seq<MemoryPool>, isBigEndian: bool, st: Scan, i: nat)
    requires AllValid(pools) && i <= |st.body|
    requires ResolveFrom(pools, isBigEndian, st, i).Some?
    ensures var r := ResolveFrom(pools, isBigEndian, st, i).value;
      && |st.erase| <= |r.erase| && r.erase[..|st.erase|] == st.erase
      && (forall x :: x in st.erase ==> x in r.erase)
      && forall j :: |st.erase| <= j < |r.erase| ==> i <= r.erase[j]
    decreases |st.body| - i
  {
    if i < |st.body| {
      var next := ResolveAt(pools, isBigEndian, st, i).value;
      ResolveAtStep(pools, isBigEndian, st, i);
      ResolveFromExtends(pools, isBigEndian, next, i + 1);
      var r := ResolveFrom(pools, isBigEndian, next, i + 1).value;
      assert r.erase[..|next.erase|][..|st.erase|] == r.erase[..|st.erase|];
      forall j | |st.erase| <= j < |r.erase| ensures i <= r.erase[j] {
        if j < |next.erase| {
          assert r.erase[j] == next.erase[j];
        }
      }
    }
  }

  /** The first loop as a whole rewrites only references. */
  lemma {:induction false} ResolveFromRewrites(pools: seq<MemoryPool>, isBigEndian: bool, st: Scan, i: nat)
    requires AllValid(pools) && i <= |st.body|
    requires ResolveFrom(pools, isBigEndian, st, i).Some?
    ensures Rewritten(st.body, ResolveFrom(pools, isBigEndian, st, i).value.body)
    decreases |st.body| - i
  {
    if i < |st.body| {
      var next := ResolveAt(pools, isBigEndian, st, i).value;
      ResolveAtRewrites(pools, isBigEndian, st, i);
      ResolveFromRewrites(pools, isBigEndian, next, i + 1);
      RewrittenTransitive(st.body, next.body, ResolveFrom(pools, isBigEndian, next, i + 1).value.body);
    }
  }

  /** Every position in the final queue holds a load-helper call to a mapped
      address whose result is no longer used. */
  lemma {:induction false} ResolveFromQueue(pools: seq<MemoryPool>, isBigEndian: bool, st: Scan, i: nat)
    requires AllValid(pools) && i <= |st.body|
    requires QueueResolved(pools, st) && forall j :: 0 <= j < |st.erase| ==> st.erase[j] < i
    requires ResolveFrom(pools, isBigEndian, st, i).Some?
    ensures QueueResolved(pools, ResolveFrom(pools, isBigEndian, st, i).value)
    decreases |st.body| - i
  {
    if i < |st.body| {
      var next := ResolveAt(pools, isBigEndian, st, i).value;
      ResolveAtStep(pools, isBigEndian, st, i);
      ResolveAtQueue(pools, isBigEndian, st, i);
      ResolveFromQueue(pools, isBigEndian, next, i + 1);
    }
  }

  /** No call uses the result of a call placed later in the body. */
  ghost predicate NoForwardCallUses(body: seq<Instr>) {
    forall q, p :: 0 <= q < p < |body| && body[q].Call? && body[p].Call? ==> !Uses(body[q], body[p].id)
  }

  lemma RewrittenKeepsNoForwardCallUses(a: seq<Instr>, b: seq<Instr>)
    requires Rewritten(a, b) && NoForwardCallUses(a)
    ensures NoForwardCallUses(b)
  {
    forall q, p | 0 <= q < p < |b| && b[q].Call? && b[p].Call?
      ensures !Uses(b[q], b[p].id)
    {
      assert Skeleton(b[p]) == Skeleton(a[p]) && Skeleton(b[q]) == Skeleton(a[q]);
    }
  }

  /** One step leaves alone a call that does not use the result of the
      instruction stepped over, and keeps the calls and their identities. */
  lemma ResolveAtFrame(pools: seq<MemoryPool>, isBigEndian: bool, st: Scan, i: nat, q: nat)
    requires AllValid(pools) && q < i < |st.body| && st.body[q].Call?
    requires st.body[i].Call? ==> !Uses(st.body[q], st.body[i].id)
    requires ResolveAt(pools, isBigEndian, st, i).Some?
    ensures var next := ResolveAt(pools, isBigEndian, st, i).value;
      && next.body[q] == st.body[q]
      && forall p :: 0 <= p < |st.body| ==> Skeleton(next.body[p]) == Skeleton(st.body[p])
  {
    var next := ResolveAt(pools, isBigEndian, st, i).value;
    if next != st {
      var ins := st.body[i];
      var bits := LoadBits(ins.callee.value).value;
      var c := MemoryConstant(pools, ins.args[0].value, bits, isBigEndian).value;
      ReplaceAllUsesWithSpec(st.body, ins.id, c);
    }
  }

  /** A call that uses no result of a call from position `i` on is left
      alone by the rest of the loop. */
  lemma {:induction false} ResolveFromFrame(pools: seq<MemoryPool>, isBigEndian: bool, st: Scan, i: nat, q: nat)
    requires AllValid(pools) && q < i <= |st.body| && st.body[q].Call?
    requires forall p :: i <= p < |st.body| && st.body[p].Call? ==> !Uses(st.body[q], st.body[p].id)
    requires ResolveFrom(pools, isBigEndian, st, i).Some?
    ensures ResolveFrom(pools, isBigEndian, st, i).value.body[q] == st.body[q]
    decreases |st.body| - i
  {
    if i < |st.body| {
      var next := ResolveAt(pools, isBigEndian, st, i).value;
      ResolveAtFrame(pools, isBigEndian, st, i, q);
      forall p | i + 1 <= p < |next.body| && next.body[p].Call?
        ensures !Uses(next.body[q], next.body[p].id)
      {
        assert Skeleton(next.body[p]) == Skeleton(st.body[p]);
      }
      ResolveFromFrame(pools, isBigEndian, next, i + 1, q);
    }
  }

  /** If the loop does not queue position `i`, the step there changed
      nothing and found the instruction settled. */
  lemma UnqueuedStepIsIdle(pools: seq<MemoryPool>, isBigEndian: bool, st: Scan, i: nat)
    requires AllValid(pools) && i < |st.body|
    requires ResolveFrom(pools, isBigEndian, st, i).Some?
    ensures i !in ResolveFrom(pools, isBigEndian, st, i).value.erase ==>
      ResolveAt(pools, isBigEndian, st, i) == Some(st) && Settled(pools, st.body[i])
  {
    var next := ResolveAt(pools, isBigEndian, st, i).value;
    ResolveAtStep(pools, isBigEndian, st, i);
    ResolveFromExtends(pools, isBigEndian, next, i + 1);
    var r := ResolveFrom(pools, isBigEndian, next, i + 1).value;
    assert i in next.erase ==> i in r.erase;
  }

  /** If the loop does not queue position `i`, the instruction there is
      settled when the loop ends. */
  lemma UnqueuedSettles(pools: seq<MemoryPool>, isBigEndian: bool, st: Scan, i: nat)
    requires AllValid(pools) && i < |st.body|
    requires NoForwardCallUses(st.body)
    requires ResolveFrom(pools, isBigEndian, st, i).Some?
    requires i !in ResolveFrom(pools, isBigEndian, st, i).value.erase
    ensures Settled(pools, ResolveFrom(pools, isBigEndian, st, i).value.body[i])
  {
    UnqueuedStepIsIdle(pools, isBigEndian, st, i);
    assert ResolveFrom(pools, isBigEndian, st, i) == ResolveFrom(pools, isBigEndian, st, i + 1);
    var r := ResolveFrom(pools, isBigEndian, st, i + 1).value;
    if st.body[i].Call? {
      ResolveFromFrame(pools, isBigEndian, st, i + 1, i);
    } else {
      ResolveFromRewrites(pools, isBigEndian, st, i + 1);
      assert Skeleton(r.body[i]) == Skeleton(st.body[i]);
    }
  }

  /** Every position the loop does not queue ends up holding an instruction
      a further scan would pass over, provided no call uses the result of a
      later call. */
  lemma {:induction false} ResolveFromSettles(pools: seq<MemoryPool>, isBigEndian: bool, st: Scan, i: nat)
    requires AllValid(pools) && i <= |st.body|
    requires NoForwardCallUses(st.body)
    requires ResolveFrom(pools, isBigEndian, st, i).Some?
    ensures var r := ResolveFrom(pools, isBigEndian, st, i).value;
      forall q :: i <= q < |r.body| && q !in r.erase ==> Settled(pools, r.body[q])
    decreases |st.body| - i
  {
    if i < |st.body| {
      var next := ResolveAt(pools, isBigEndian, st, i).value;
      assert ResolveFrom(pools, isBigEndian, st, i) == ResolveFrom(pools, isBigEndian, next, i + 1);
      ResolveAtRewrites(pools, isBigEndian, st, i);
      RewrittenKeepsNoForwardCallUses(st.body, next.body);
      ResolveFromSettles(pools, isBigEndian, next, i + 1);
      if i !in ResolveFrom(pools, isBigEndian, st, i).value.erase {
        UnqueuedSettles(pools, isBigEndian, st, i);
      }
    }
  }

  /** A body of settled instructions is a fixed point of the loop. */
  lemma {:induction false} SettledBodyUnchanged(pools: seq<MemoryPool>, isBigEndian: bool, st: Scan, i: nat)
    requires AllValid(pools) && i <= |st.body|
    requires forall k :: i <= k < |st.body| ==> Settled(pools, st.body[k])
    ensures ResolveFrom(pools, isBigEndian, st, i) == Some(st)
    decreases |st.body| - i
  {
    if i < |st.body| {
      var ins := st.body[i];
      if LoadShaped(ins) && LoadBits(ins.callee.value).Some? {
        assert FindPool(pools, ins.args[0].value).None?;
      }
      SettledBodyUnchanged(pools, isBigEndian, st, i + 1);
    }
  }
}
