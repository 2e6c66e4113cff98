/**
 * The `ReplaceConstantLoads` function pass: its state (the memory pools and
 * the jump tables), its initialisation, its two memory lookups and
 * `runOnFunction`, each proved against the functions of the modules it
 * imports.
 */
module Pass {
  import opened Wrappers
  import opened Bytes
  import opened Pools
  import opened Descriptors
  import opened Ir
  import opened Resolve
  import opened Annotate
  import opened Erase

  /** The pools of a list of descriptors, in order. */
  function PoolsOf(descs: seq<string>, files: Files): (ps: seq<MemoryPool>)
    requires forall j :: 0 <= j < |descs| ==> ValidDescriptor(descs[j], files)
    ensures |ps| == |descs| && AllValid(ps)
    ensures forall j :: 0 <= j < |descs| ==> ps[j] == GetMemoryPool(descs[j], files)
  {
    seq(|descs|, j requires 0 <= j < |descs| => GetMemoryPool(descs[j], files))
  }

  /** `jumpTableInfoMap` after entering each loaded table in turn. */
  function WithTables(m: JumpTables, loaded: seq<JumpTableInfo>): (jt: JumpTables)
    decreases |loaded|
  {
    if loaded == [] then m
    else WithTables(m[loaded[0].indirectJmpPc := loaded[0]], loaded[1..])
  }

  /** The map holds a PC iff it held it before or some loaded table has it;
      a PC loaded more than once maps to its last table; a PC not loaded
      keeps its table. */
  lemma {:induction false} WithTablesLastWins(m: JumpTables, loaded: seq<JumpTableInfo>)
    ensures forall pc :: pc in WithTables(m, loaded) <==>
      pc in m || exists j :: 0 <= j < |loaded| && loaded[j].indirectJmpPc == pc
    ensures forall j :: 0 <= j < |loaded| && (forall k :: j < k < |loaded| ==> loaded[k].indirectJmpPc != loaded[j].indirectJmpPc) ==>
      WithTables(m, loaded)[loaded[j].indirectJmpPc] == loaded[j]
    ensures forall pc :: pc in m && (forall j :: 0 <= j < |loaded| ==> loaded[j].indirectJmpPc != pc) ==>
      WithTables(m, loaded)[pc] == m[pc]
    decreases |loaded|
  {
    if loaded != [] {
      var m' := m[loaded[0].indirectJmpPc := loaded[0]];
      var rest := loaded[1..];
      WithTablesLastWins(m', rest);
      var w := WithTables(m, loaded);
      forall pc ensures pc in w <==> pc in m || exists j :: 0 <= j < |loaded| && loaded[j].indirectJmpPc == pc {
        if exists j :: 0 <= j < |rest| && rest[j].indirectJmpPc == pc {
          var j :| 0 <= j < |rest| && rest[j].indirectJmpPc == pc;
          assert loaded[j + 1] == rest[j];
        }
        if exists j :: 0 <= j < |loaded| && loaded[j].indirectJmpPc == pc {
          var j :| 0 <= j < |loaded| && loaded[j].indirectJmpPc == pc;
          if j > 0 {
            assert rest[j - 1] == loaded[j];
          }
        }
      }
      forall j | 0 <= j < |loaded| && (forall k :: j < k < |loaded| ==> loaded[k].indirectJmpPc != loaded[j].indirectJmpPc)
        ensures w[loaded[j].indirectJmpPc] == loaded[j]
      {
        if j > 0 {
          assert rest[j - 1] == loaded[j];
          forall k | j - 1 < k < |rest| ensures rest[k].indirectJmpPc != rest[j - 1].indirectJmpPc {
            assert rest[k] == loaded[k + 1];
          }
        } else {
          forall k | 0 <= k < |rest| ensures rest[k].indirectJmpPc != loaded[0].indirectJmpPc {
            assert rest[k] == loaded[k + 1];
          }
        }
      }
      forall pc | pc in m && (forall j :: 0 <= j < |loaded| ==> loaded[j].indirectJmpPc != pc)
        ensures w[pc] == m[pc]
      {
        assert loaded[0].indirectJmpPc != pc;
        forall k | 0 <= k < |rest| ensures rest[k].indirectJmpPc != pc {
          assert rest[k] == loaded[k + 1];
        }
      }
    }
  }

  /** One more case written. */
  lemma AddCase(meta: Metadata, targets: seq<int>, v: int)
    ensures WithCases(meta, targets + [v], |targets| + 1) == WithCases(meta, targets, |targets|)[CaseKey(|targets|) := v]
  {
    WithCasesPrefix(meta, targets, targets + [v], |targets|);
  }

  /** Writing cases leaves the count, default and start alone. */
  lemma FixedKeysKept(meta: Metadata, targets: seq<int>, n: nat)
    requires n <= |targets|
    ensures var w := WithCases(meta, targets, n);
      && (SWITCH_CNT in meta ==> SWITCH_CNT in w && w[SWITCH_CNT] == meta[SWITCH_CNT])
      && (SWITCH_DEFAULT in meta ==> SWITCH_DEFAULT in w && w[SWITCH_DEFAULT] == meta[SWITCH_DEFAULT])
      && (SWITCH_IDX_START in meta ==> SWITCH_IDX_START in w && w[SWITCH_IDX_START] == meta[SWITCH_IDX_START])
  {
    WithCasesKeepsOthers(meta, targets, n);
    forall i: nat | i < n {
      CaseKeyIsNew(i);
    }
  }

  /** The first `|targets|` entries fit and `targets` holds what they read. */
  ghost predicate CasesRead(pools: seq<MemoryPool>, info: JumpTableInfo, isBigEndian: bool, targets: seq<int>)
    requires AllValid(pools)
  {
    forall j :: 0 <= j < |targets| ==> LookupFits(pools, EntryAddr(info, j), 4) && targets[j] == MemoryValue(pools, EntryAddr(info, j), 4, isBigEndian)
  }

  lemma CaseReadNext(pools: seq<MemoryPool>, info: JumpTableInfo, isBigEndian: bool, targets: seq<int>, v: int)
    requires AllValid(pools) && CasesRead(pools, info, isBigEndian, targets)
    requires LookupFits(pools, EntryAddr(info, |targets|), 4) && v == MemoryValue(pools, EntryAddr(info, |targets|), 4, isBigEndian)
    ensures CasesRead(pools, info, isBigEndian, targets + [v])
  {
    var t := targets + [v];
    forall j | 0 <= j < |t| ensures LookupFits(pools, EntryAddr(info, j), 4) && t[j] == MemoryValue(pools, EntryAddr(info, j), 4, isBigEndian) {
      if j < |targets| {
        assert t[j] == targets[j];
      }
    }
  }

  /** Once every entry's target is written, the metadata is the dispatch
      annotation. */
  lemma AllCases(meta: Metadata, pools: seq<MemoryPool>, info: JumpTableInfo, isBigEndian: bool, targets: seq<int>)
    requires AllValid(pools) && EntryCount(info) >= 1 && |targets| == EntryCount(info) && CasesRead(pools, info, isBigEndian, targets)
    ensures EntriesFit(pools, info)
    ensures WithCases(meta[SWITCH_CNT := EntryCount(info)][SWITCH_DEFAULT := info.defaultCasePc][SWITCH_IDX_START := info.idxStart], targets, |targets|)
      == DispatchMeta(meta, pools, info, isBigEndian)
  {
    assert targets == CaseTargets(pools, info, isBigEndian);
  }

  /** What one run of the pass leaves: the new body, and whether it
      reports a change. */
  datatype RunResult = RunResult(body: seq<Instr>, changed: bool)

  /** `runOnFunction` on a body: resolve the loads, annotate the dispatch
      stores, erase the resolved loads; `None` when the process aborts. */
  function Run(pools: seq<MemoryPool>, jt: JumpTables, isBigEndian: bool, body: seq<Instr>): (r: Option<RunResult>)
    requires AllValid(pools)
  {
    match ResolveFrom(pools, isBigEndian, Scan(body, []), 0)
    case None => None
    case Some(st) =>
      match AnnotateAll(pools, jt, isBigEndian, st.body)
      case None => None
      case Some(annotated) => Some(RunResult(Without(annotated, st.erase), |st.erase| > 0))
  }

  /** How a call of `runOnFunction` ends. */
  datatype Outcome = Aborted | Finished(changed: bool)

  /** An LLVM function, as the sequence of its instructions block after block. */
  class Function {
    var body: seq<Instr>

    constructor(body: seq<Instr>)
      ensures this.body == body
    {
      this.body := body;
    }
  }

  class ReplaceConstantLoads {
    var memoryPools: seq<MemoryPool>
    var jumpTableInfoList: seq<JumpTableInfo>
    var jumpTableInfoMap: JumpTables
    var hasJumpTableInfo: bool

    ghost predicate Valid()
      reads this
    {
      AllValid(memoryPools)
    }

    constructor()
      ensures Valid()
      ensures memoryPools == [] && jumpTableInfoList == [] && jumpTableInfoMap == map[] && !hasJumpTableInfo
    {
      memoryPools := [];
      jumpTableInfoList := [];
      jumpTableInfoMap := map[];
      hasJumpTableInfo := false;
    }

    /** `initialize`: one pool per descriptor, appended in order, then the
        jump tables loaded from `jumpTableInfoFile` (given here as `loaded`)
        entered into the map by their PC. A descriptor without `@` or naming
        a file that cannot be opened aborts (`ok` is false). */
    method Initialize(memoryDescriptors: seq<string>, files: Files, jumpTableInfoFile: string, loaded: seq<JumpTableInfo>)
      returns (ok: bool)
      requires Valid()
      requires forall d :: d in memoryDescriptors && '@' in d ==> WellFormedAddress(SplitDescriptor(d).1)
      requires forall path :: path in files ==> |files[path]| < MAX_FILE_LENGTH
      modifies this
      ensures Valid()
      ensures ok <==> forall j :: 0 <= j < |memoryDescriptors| ==> ValidDescriptor(memoryDescriptors[j], files)
      ensures ok ==> memoryPools == old(memoryPools) + PoolsOf(memoryDescriptors, files)
      ensures ok && jumpTableInfoFile != "" ==>
        && jumpTableInfoList == loaded
        && jumpTableInfoMap == WithTables(old(jumpTableInfoMap), loaded)
        && hasJumpTableInfo
      ensures ok && jumpTableInfoFile == "" ==>
        && jumpTableInfoList == old(jumpTableInfoList)
        && jumpTableInfoMap == old(jumpTableInfoMap)
        && !hasJumpTableInfo
    {
      var k := 0;
      while k < |memoryDescriptors|
        invariant 0 <= k <= |memoryDescriptors|
        invariant Valid()
        invariant forall j :: 0 <= j < k ==> ValidDescriptor(memoryDescriptors[j], files)
        invariant memoryPools == old(memoryPools) + PoolsOf(memoryDescriptors[..k], files)
        invariant jumpTableInfoList == old(jumpTableInfoList) && jumpTableInfoMap == old(jumpTableInfoMap)
      {
        var desc := memoryDescriptors[k];
        if '@' !in desc || SplitDescriptor(desc).0 !in files {
          return false;
        }
        var mp := GetMemoryPool(desc, files);
        memoryPools := memoryPools + [mp];
        assert memoryDescriptors[..k + 1] == memoryDescriptors[..k] + [desc];
        k := k + 1;
      }
      assert memoryDescriptors[..k] == memoryDescriptors;
      ok := true;
      if jumpTableInfoFile != "" {
        jumpTableInfoList := loaded;
        var i := 0;
        while i < |loaded|
          invariant 0 <= i <= |loaded|
          invariant WithTables(jumpTableInfoMap, loaded[i..]) == WithTables(old(jumpTableInfoMap), loaded)
          invariant Valid() && memoryPools == old(memoryPools) + PoolsOf(memoryDescriptors, files)
          invariant jumpTableInfoList == loaded
        {
          assert loaded[i..][1..] == loaded[i + 1..];
          jumpTableInfoMap := jumpTableInfoMap[loaded[i].indirectJmpPc := loaded[i]];
          i := i + 1;
        }
        hasJumpTableInfo := true;
      } else {
        hasJumpTableInfo := false;
      }
    }

    /** The `uint64_t` overload of `getMemoryValue`: the read from the first
        pool containing `address`, `0xdeadbeef` when none does; `ok` is
        false when the read's assertions fail. */
    method GetMemoryValue(address: U64, size: nat, isBigEndian: bool) returns (value: U64, ok: bool)
      requires Valid()
      ensures ok <==> LookupFits(memoryPools, address, size)
      ensures ok ==> value == MemoryValue(memoryPools, address, size, isBigEndian)
    {
      var k := 0;
      while k < |memoryPools|
        invariant 0 <= k <= |memoryPools|
        invariant forall j :: 0 <= j < k ==> !memoryPools[j].Inside(address)
      {
        var mp := memoryPools[k];
        if mp.Inside(address) {
          assert FindPool(memoryPools, address) == Some(k);
          if !mp.ReadOk(address, size) {
            return 0, false;
          }
          value := mp.Read(address, size, isBigEndian);
          return value, true;
        }
        k := k + 1;
      }
      return UNMAPPED_VALUE, true;
    }

    /** The typed overload of `getMemoryValue`: `bitWidth / 8` bytes from
        the first pool containing `address` as a constant of that width,
        `None` when no pool does; `ok` is false when the read's assertions
        fail. */
    method GetMemoryConstant(address: U64, bitWidth: nat, isBigEndian: bool) returns (value: Option<Operand>, ok: bool)
      requires Valid()
      ensures ok <==> LookupFits(memoryPools, address, bitWidth / 8)
      ensures ok ==> value == MemoryConstant(memoryPools, address, bitWidth, isBigEndian)
    {
      var k := 0;
      while k < |memoryPools|
        invariant 0 <= k <= |memoryPools|
        invariant forall j :: 0 <= j < k ==> !memoryPools[j].Inside(address)
      {
        var mp := memoryPools[k];
        if mp.Inside(address) {
          assert FindPool(memoryPools, address) == Some(k);
          if !mp.ReadOk(address, bitWidth / 8) {
            return None, false;
          }
          var v := mp.Read(address, bitWidth / 8, isBigEndian);
          // ConstantInt::get keeps the low bitWidth bits
          var limit := Pow2(bitWidth);
          return Some(Const(bitWidth, if v < limit then v else v % limit)), true;
        }
        k := k + 1;
      }
      return None, true;
    }

    /** The annotation of one dispatch store: the count, default and start,
        then one case per entry. `ok` is false when the pass aborts: on
        fewer than one entry, before anything is set, or on an entry whose
        read fails its assertions, after the count, default and start are
        set. */
    method AnnotateDispatch(meta: Metadata, info: JumpTableInfo, isBigEndian: bool) returns (m: Metadata, ok: bool)
      requires Valid()
      ensures ok <==> EntryCount(info) >= 1 && EntriesFit(memoryPools, info)
      ensures ok ==> m == DispatchMeta(meta, memoryPools, info, isBigEndian)
      ensures !ok && EntryCount(info) >= 1 ==>
        && SWITCH_CNT in m && m[SWITCH_CNT] == EntryCount(info)
        && SWITCH_DEFAULT in m && m[SWITCH_DEFAULT] == info.defaultCasePc
        && SWITCH_IDX_START in m && m[SWITCH_IDX_START] == info.idxStart
    {
      var cntEntries := 1 + info.idxStop - info.idxStart;
      if cntEntries < 1 {
        return meta, false;
      }
      m := meta[SWITCH_CNT := cntEntries][SWITCH_DEFAULT := info.defaultCasePc][SWITCH_IDX_START := info.idxStart];
      ghost var fixed := m;
      ghost var targets: seq<int> := [];
      var i := 0;
      while i < cntEntries
        invariant 0 <= i <= cntEntries && |targets| == i
        invariant CasesRead(memoryPools, info, isBigEndian, targets)
        invariant m == WithCases(fixed, targets, i)
      {
        var loadedPc, fits := GetMemoryValue(EntryAddr(info, i), 4, isBigEndian);
        if !fits {
          assert !LookupFits(memoryPools, EntryAddr(info, i), 4);
          FixedKeysKept(fixed, targets, i);
          return m, false;
        }
        CaseReadNext(memoryPools, info, isBigEndian, targets, loadedPc);
        AddCase(fixed, targets, loadedPc);
        targets := targets + [loadedPc];
        m := m[CaseKey(i) := loadedPc];
        i := i + 1;
      }
      ok := true;
      AllCases(meta, memoryPools, info, isBigEndian, targets);
    }

    /** The first loop of `runOnFunction`: each load helper with a constant
        address that a pool maps is replaced by the value read and queued;
        `ok` is false when the pass aborts. */
    method ResolveLoads(f: Function, isBigEndian: bool) returns (eraseIns: seq<nat>, ok: bool)
      requires Valid()
      modifies f
      ensures ok <==> ResolveFrom(memoryPools, isBigEndian, Scan(old(f.body), []), 0).Some?
      ensures ok ==> Scan(f.body, eraseIns) == ResolveFrom(memoryPools, isBigEndian, Scan(old(f.body), []), 0).value
    {
      eraseIns := [];
      var i := 0;
      while i < |f.body|
        invariant 0 <= i <= |f.body|
        invariant ResolveFrom(memoryPools, isBigEndian, Scan(f.body, eraseIns), i) ==
          ResolveFrom(memoryPools, isBigEndian, Scan(old(f.body), []), 0)
      {
        var ins := f.body[i];
        if ins.Call? && |ins.args| == 2 && ins.args[0].Const? {
          if ins.callee.None? {
            // getCalledFunction() is NULL for an indirect call
            return eraseIns, false;
          }
          var name := ins.callee.value;
          var bits := 0;
          if name == "__ldl_mmu" {
            bits := 32;
          } else if name == "__lds_mmu" {
            bits := 16;
          } else if name == "__ldb_mmu" {
            bits := 8;
          }
          if bits != 0 {
            var value, fits := GetMemoryConstant(ins.args[0].value, bits, isBigEndian);
            if !fits {
              return eraseIns, false;
            }
            if value.Some? {
              f.body := ReplaceAllUsesWith(f.body, ins.id, value.value);
              eraseIns := eraseIns + [i];
            }
          }
        }
        i := i + 1;
      }
      ok := true;
    }

    /** The second loop of `runOnFunction`: every dispatch store gets its
        table's annotation; `ok` is false when the pass aborts. */
    method AnnotateJumpTables(f: Function, isBigEndian: bool) returns (ok: bool)
      requires Valid()
      modifies f
      ensures ok <==> AnnotateAll(memoryPools, jumpTableInfoMap, isBigEndian, old(f.body)).Some?
      ensures ok ==> f.body == AnnotateAll(memoryPools, jumpTableInfoMap, isBigEndian, old(f.body)).value
    {
      ghost var body := f.body;
      AnnotateAllPointwise(memoryPools, jumpTableInfoMap, isBigEndian, body);
      var i := 0;
      while i < |f.body|
        invariant 0 <= i <= |f.body| == |body|
        invariant forall k :: 0 <= k < i ==> AnnotateInstr(memoryPools, jumpTableInfoMap, isBigEndian, body[k]) == Some(f.body[k])
        invariant forall k :: i <= k < |f.body| ==> f.body[k] == body[k]
      {
        var ins := f.body[i];
        if ins.Store? && ins.ptr == Global("PC") && CURR_PC in ins.meta {
          var currPc := ins.meta[CURR_PC];
          if currPc in jumpTableInfoMap {
            var info := jumpTableInfoMap[currPc];
            var m, fits := AnnotateDispatch(ins.meta, info, isBigEndian);
            if !fits {
              assert AnnotateInstr(memoryPools, jumpTableInfoMap, isBigEndian, body[i]).None?;
              return false;
            }
            f.body := f.body[i := ins.(meta := m)];
          }
        }
        assert AnnotateInstr(memoryPools, jumpTableInfoMap, isBigEndian, body[i]) == Some(f.body[i]);
        i := i + 1;
      }
      ok := true;
    }

    /** The erase loop: the queued positions, increasing, are removed one
        after the other, each `k` places lower once `k` have gone. */
    method EraseQueued(f: Function, eraseIns: seq<nat>)
      requires StrictlyIncreasing(eraseIns) && Below(eraseIns, |f.body|)
      modifies f
      ensures f.body == Without(old(f.body), eraseIns)
    {
      ghost var body := f.body;
      WithoutNothing(body);
      var k := 0;
      while k < |eraseIns|
        invariant 0 <= k <= |eraseIns|
        invariant f.body == Without(body, eraseIns[..k])
      {
        assert eraseIns[..k + 1] == eraseIns[..k] + [eraseIns[k]];
        WithoutAppend(body, eraseIns[..k], eraseIns[k]);
        var p := eraseIns[k] - k;
        f.body := f.body[..p] + f.body[p + 1..];
        k := k + 1;
      }
      assert eraseIns[..k] == eraseIns;
    }

    /** `runOnFunction`: resolve, annotate, erase; the result says whether
        anything was erased. */
    method RunOnFunction(f: Function, isBigEndian: bool) returns (outcome: Outcome)
      requires Valid()
      modifies f
      ensures outcome.Aborted? <==> Run(memoryPools, jumpTableInfoMap, isBigEndian, old(f.body)).None?
      ensures outcome.Finished? ==>
        var r := Run(memoryPools, jumpTableInfoMap, isBigEndian, old(f.body)).value;
        f.body == r.body && outcome.changed == r.changed
    {
      ghost var body := f.body;
      var eraseIns, resolved := ResolveLoads(f, isBigEndian);
      if !resolved {
        return Aborted;
      }
      ResolveFromQueue(memoryPools, isBigEndian, Scan(body, []), 0);
      var annotated := AnnotateJumpTables(f, isBigEndian);
      if !annotated {
        return Aborted;
      }
      AnnotateAllPointwise(memoryPools, jumpTableInfoMap, isBigEndian, ResolveFrom(memoryPools, isBigEndian, Scan(body, []), 0).value.body);
      EraseQueued(f, eraseIns);
      if |eraseIns| > 0 {
        return Finished(true);
      }
      return Finished(false);
    }
  }
}
