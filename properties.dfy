/**
 * What one run of `runOnFunction` does to a body as a whole: which
 * instructions it removes, what it leaves in their place, what it reports,
 * and when a second run finds nothing left to do.
 */
module Properties {
  import opened Wrappers
  import opened Bytes
  import opened Pools
  import opened Ir
  import opened Resolve
  import opened Annotate
  import opened Erase
  import opened Pass

  /** The first loop queues positions in increasing order, each a load
      helper it resolved; the second loop keeps the body's length. */
  lemma RunQueue(pools: seq<MemoryPool>, jt: JumpTables, isBigEndian: bool, body: seq<Instr>)
    requires AllValid(pools) && Run(pools, jt, isBigEndian, body).Some?
    ensures var st := ResolveFrom(pools, isBigEndian, Scan(body, []), 0).value;
      && QueueResolved(pools, st)
      && |st.body| == |body|
      && Below(st.erase, |body|)
      && |AnnotateAll(pools, jt, isBigEndian, st.body).value| == |body|
  {
    ResolveFromQueue(pools, isBigEndian, Scan(body, []), 0);
    var st := ResolveFrom(pools, isBigEndian, Scan(body, []), 0).value;
    AnnotateAllPointwise(pools, jt, isBigEndian, st.body);
  }

  /** Exactly the queued calls are removed, and the pass reports a change
      exactly when it removed something. */
  lemma RunChanged(pools: seq<MemoryPool>, jt: JumpTables, isBigEndian: bool, body: seq<Instr>)
    requires AllValid(pools) && Run(pools, jt, isBigEndian, body).Some?
    ensures var st := ResolveFrom(pools, isBigEndian, Scan(body, []), 0).value;
      var res := Run(pools, jt, isBigEndian, body).value;
      && |res.body| == |body| - |st.erase|
      && (res.changed <==> |st.erase| > 0)
      && (res.changed <==> |res.body| < |body|)
  {
    RunQueue(pools, jt, isBigEndian, body);
    var st := ResolveFrom(pools, isBigEndian, Scan(body, []), 0).value;
    var annotated := AnnotateAll(pools, jt, isBigEndian, st.body).value;
    WithoutLength(annotated, st.erase);
  }

  /** The output is the annotated body at the positions that were not
      queued, in their original order. */
  lemma RunContents(pools: seq<MemoryPool>, jt: JumpTables, isBigEndian: bool, body: seq<Instr>)
    requires AllValid(pools) && Run(pools, jt, isBigEndian, body).Some?
    ensures var st := ResolveFrom(pools, isBigEndian, Scan(body, []), 0).value;
      var res := Run(pools, jt, isBigEndian, body).value;
      var kept := Kept(|body|, st.erase);
      && StrictlyIncreasing(kept)
      && (forall p: nat :: p in kept <==> p < |body| && p !in st.erase)
      && |res.body| == |kept|
      && forall j :: 0 <= j < |kept| ==>
           kept[j] < |st.body| && Some(res.body[j]) == AnnotateInstr(pools, jt, isBigEndian, st.body[kept[j]])
  {
    RunQueue(pools, jt, isBigEndian, body);
    var st := ResolveFrom(pools, isBigEndian, Scan(body, []), 0).value;
    var annotated := AnnotateAll(pools, jt, isBigEndian, st.body).value;
    AnnotateAllPointwise(pools, jt, isBigEndian, st.body);
    WithoutIsKept(annotated, st.erase);
    KeptSpec(|body|, st.erase);
  }

  /** Every removed instruction is a load helper at a pooled address, and
      nothing left behind still refers to its result. */
  lemma RunDropsOnlyResolvedLoads(pools: seq<MemoryPool>, jt: JumpTables, isBigEndian: bool, body: seq<Instr>)
    requires AllValid(pools) && Run(pools, jt, isBigEndian, body).Some?
    ensures var st := ResolveFrom(pools, isBigEndian, Scan(body, []), 0).value;
      var res := Run(pools, jt, isBigEndian, body).value;
      forall j :: 0 <= j < |st.erase| ==>
        && st.erase[j] < |body|
        && Mapped(pools, st.body[st.erase[j]])
        && body[st.erase[j]].Call?
        && st.body[st.erase[j]].id == body[st.erase[j]].id
        && forall k :: 0 <= k < |res.body| ==> !Uses(res.body[k], body[st.erase[j]].id)
  {
    RunQueue(pools, jt, isBigEndian, body);
    RunContents(pools, jt, isBigEndian, body);
    ResolveFromRewrites(pools, isBigEndian, Scan(body, []), 0);
    var st := ResolveFrom(pools, isBigEndian, Scan(body, []), 0).value;
    var res := Run(pools, jt, isBigEndian, body).value;
    var kept := Kept(|body|, st.erase);
    forall j, k | 0 <= j < |st.erase| && 0 <= k < |res.body|
      ensures body[st.erase[j]].Call? && st.body[st.erase[j]].id == body[st.erase[j]].id && !Uses(res.body[k], body[st.erase[j]].id)
    {
      var e := st.erase[j];
      assert Skeleton(st.body[e]) == Skeleton(body[e]);
      AnnotateInstrSpec(pools, jt, isBigEndian, st.body[kept[k]]);
      assert !Uses(st.body[kept[k]], st.body[e].id);
    }
  }

  /** Annotation keeps an instruction settled: it only changes stores. */
  lemma AnnotatedStaysSettled(pools: seq<MemoryPool>, jt: JumpTables, isBigEndian: bool, ins: Instr)
    requires AllValid(pools) && AnnotateInstr(pools, jt, isBigEndian, ins).Some?
    ensures Settled(pools, ins) ==> Settled(pools, AnnotateInstr(pools, jt, isBigEndian, ins).value)
  {
    AnnotateInstrSpec(pools, jt, isBigEndian, ins);
  }

  /** A body each of whose instructions annotation leaves alone is left
      alone by the second loop. */
  lemma AnnotateAllFixed(pools: seq<MemoryPool>, jt: JumpTables, isBigEndian: bool, body: seq<Instr>)
    requires AllValid(pools)
    requires forall k :: 0 <= k < |body| ==> AnnotateInstr(pools, jt, isBigEndian, body[k]) == Some(body[k])
    ensures AnnotateAll(pools, jt, isBigEndian, body) == Some(body)
  {
    AnnotateAllPointwise(pools, jt, isBigEndian, body);
    var r := AnnotateAll(pools, jt, isBigEndian, body).value;
    assert r == body;
  }

  /** A body with no load helper left to resolve and no jump table to
      apply is returned as it is, and the pass reports no change. */
  lemma RunOnSettledBody(pools: seq<MemoryPool>, isBigEndian: bool, body: seq<Instr>)
    requires AllValid(pools)
    requires forall k :: 0 <= k < |body| ==> Settled(pools, body[k])
    ensures Run(pools, map[], isBigEndian, body) == Some(RunResult(body, false))
  {
    SettledBodyUnchanged(pools, isBigEndian, Scan(body, []), 0);
    AnnotateAllWithoutTables(pools, isBigEndian, body);
    WithoutNothing(body);
  }

  /** A second run over the output erases nothing, reports no change and
      leaves the body as it is, provided no call uses the result of a call
      placed after it. */
  lemma RunIdempotent(pools: seq<MemoryPool>, jt: JumpTables, isBigEndian: bool, body: seq<Instr>)
    requires AllValid(pools) && NoForwardCallUses(body) && Run(pools, jt, isBigEndian, body).Some?
    ensures var out := Run(pools, jt, isBigEndian, body).value.body;
      Run(pools, jt, isBigEndian, out) == Some(RunResult(out, false))
  {
    RunContents(pools, jt, isBigEndian, body);
    ResolveFromSettles(pools, isBigEndian, Scan(body, []), 0);
    var st := ResolveFrom(pools, isBigEndian, Scan(body, []), 0).value;
    var out := Run(pools, jt, isBigEndian, body).value.body;
    var kept := Kept(|body|, st.erase);
    forall j | 0 <= j < |out|
      ensures Settled(pools, out[j]) && AnnotateInstr(pools, jt, isBigEndian, out[j]) == Some(out[j])
    {
      var p := kept[j];
      assert p in kept;
      AnnotatedStaysSettled(pools, jt, isBigEndian, st.body[p]);
      AnnotateInstrIdempotent(pools, jt, isBigEndian, st.body[p]);
    }
    SettledBodyUnchanged(pools, isBigEndian, Scan(out, []), 0);
    AnnotateAllFixed(pools, jt, isBigEndian, out);
    WithoutNothing(out);
  }

  /** A four-byte image at 0x1000 that holds 0x1000, little-endian. */
  const FORWARD_POOL := MemoryPool("ram.bin", 0x1000, 0x1004, [0x00, 0x10, 0x00, 0x00])

  /** The load helper at the pooled address, whose result is call 0. */
  const LOAD_AT_POOL := Call(0, Some("__ldl_mmu"), [Const(32, 0x1000), Const(32, 0)])

  /** A load placed before the load whose result it takes as address. */
  const LOAD_THROUGH := Call(1, Some("__ldl_mmu"), [Ref(0), Const(32, 0)])

  const LOAD_THROUGH_RESOLVED := Call(1, Some("__ldl_mmu"), [Const(32, 0x1000), Const(32, 0)])

  lemma ForwardPoolRead()
    ensures AllValid([FORWARD_POOL])
    ensures FindPool([FORWARD_POOL], 0x1000) == Some(0)
    ensures FORWARD_POOL.ReadOk(0x1000, 4)
    ensures ReadValue(FORWARD_POOL, 0x1000, 4, false) == 0x1000
  {
    assert FORWARD_POOL.Window(0x1000, 4) == [0x00, 0x10, 0x00, 0x00];
    LittleEndianFour(0x00, 0x10, 0x00, 0x00);
  }

  const FORWARD_VALUE := Const(32, 0x1000)

  lemma ForwardSubst()
    ensures SubstInstr(LOAD_THROUGH, 0, FORWARD_VALUE) == LOAD_THROUGH_RESOLVED
    ensures SubstInstr(LOAD_AT_POOL, 0, FORWARD_VALUE) == LOAD_AT_POOL
    ensures SubstInstr(LOAD_THROUGH_RESOLVED, 1, FORWARD_VALUE) == LOAD_THROUGH_RESOLVED
  {
    assert SubstOperands([Ref(0), Const(32, 0)], 0, FORWARD_VALUE) == [FORWARD_VALUE, Const(32, 0)];
    assert SubstOperands([FORWARD_VALUE, Const(32, 0)], 0, FORWARD_VALUE) == [FORWARD_VALUE, Const(32, 0)];
    assert SubstOperands([FORWARD_VALUE, Const(32, 0)], 1, FORWARD_VALUE) == [FORWARD_VALUE, Const(32, 0)];
  }

  /** A word load at 0x1000 reads the constant 0x1000 and queues its call. */
  lemma ForwardLoadStep(st: Scan, i: nat)
    requires i < |st.body| && st.body[i].Call? && st.body[i].callee == Some("__ldl_mmu")
    requires st.body[i].args == [FORWARD_VALUE, Const(32, 0)]
    ensures AllValid([FORWARD_POOL])
    ensures ResolveAt([FORWARD_POOL], false, st, i)
      == Some(Scan(ReplaceAllUsesWith(st.body, st.body[i].id, FORWARD_VALUE), st.erase + [i]))
  {
    ForwardPoolRead();
    assert LoadBits("__ldl_mmu") == Some(32);
    ResolveAtSpec([FORWARD_POOL], false, st, i);
  }

  /** The first scan passes over the earlier load, whose address is not a
      constant yet, and resolves the later one. */
  lemma ForwardFirstScan()
    ensures AllValid([FORWARD_POOL])
    ensures ResolveFrom([FORWARD_POOL], false, Scan([LOAD_THROUGH, LOAD_AT_POOL], []), 0)
      == Some(Scan([LOAD_THROUGH_RESOLVED, LOAD_AT_POOL], [1]))
  {
    ForwardPoolRead();
    var pools := [FORWARD_POOL];
    var st0 := Scan([LOAD_THROUGH, LOAD_AT_POOL], []);
    assert ResolveAt(pools, false, st0, 0) == Some(st0);
    ForwardLoadStep(st0, 1);
    ForwardSubst();
    assert ReplaceAllUsesWith(st0.body, 0, FORWARD_VALUE) == [LOAD_THROUGH_RESOLVED, LOAD_AT_POOL];
    var st1 := Scan([LOAD_THROUGH_RESOLVED, LOAD_AT_POOL], [1]);
    assert st0.erase + [1] == [1];
    assert ResolveAt(pools, false, st0, 1) == Some(st1);
    assert ResolveFrom(pools, false, st1, 2) == Some(st1);
    assert ResolveFrom(pools, false, st0, 1) == Some(st1);
    assert ResolveFrom(pools, false, st0, 0) == ResolveFrom(pools, false, st0, 1);
  }

  /** The first run resolves only the later load, so the output still holds
      a load at a pooled address. */
  lemma ForwardUseFirstRun()
    ensures AllValid([FORWARD_POOL])
    ensures Run([FORWARD_POOL], map[], false, [LOAD_THROUGH, LOAD_AT_POOL])
      == Some(RunResult([LOAD_THROUGH_RESOLVED], true))
  {
    ForwardFirstScan();
    var body1 := [LOAD_THROUGH_RESOLVED, LOAD_AT_POOL];
    AnnotateAllWithoutTables([FORWARD_POOL], false, body1);
    assert body1[..1] == [LOAD_THROUGH_RESOLVED];
    assert Without(body1[..1], [1]) == [LOAD_THROUGH_RESOLVED] by {
      assert body1[..1][..0] == [];
      assert 0 !in [1];
    }
    assert Without(body1, [1]) == Without(body1[..1], [1]);
  }

  /** A second run over that output still finds a load to resolve and
      reports a change: without the ordering hypothesis the pass is not
      idempotent. */
  lemma ForwardUseSecondRun()
    ensures AllValid([FORWARD_POOL])
    ensures Run([FORWARD_POOL], map[], false, [LOAD_THROUGH_RESOLVED]) == Some(RunResult([], true))
  {
    var pools := [FORWARD_POOL];
    var body := [LOAD_THROUGH_RESOLVED];
    var st0 := Scan(body, []);
    ForwardLoadStep(st0, 0);
    ForwardSubst();
    assert ReplaceAllUsesWith(body, 1, FORWARD_VALUE) == body;
    var st1 := Scan(body, [0]);
    assert st0.erase + [0] == [0];
    assert ResolveAt(pools, false, st0, 0) == Some(st1);
    assert ResolveFrom(pools, false, st1, 1) == Some(st1);
    assert ResolveFrom(pools, false, st0, 0) == Some(st1);
    AnnotateAllWithoutTables(pools, false, body);
    assert Without(body, [0]) == [] by {
      assert body[..0] == [];
    }
  }
}
