/**
 * The second loop of `runOnFunction`: a store to the global `PC` whose
 * `INS_currPC` names an indirect jump with a known jump table gets the
 * table's geometry and every case target as metadata.
 */
module Annotate {
  import opened Wrappers
  import opened Bytes
  import opened Numerals
  import opened Pools
  import opened Ir

  /** One jump table recovered by the lifter's companion script: the PC of
      the indirect jump, the range of the switch index, the address of the
      table of 4-byte targets and the target of the default case. */
  datatype JumpTableInfo = JumpTableInfo(
    indirectJmpPc: U64,
    idxStart: int,
    idxStop: int,
    baseTable: U64,
    defaultCasePc: int)

  /** Jump tables by the PC of their indirect jump. */
  type JumpTables = map<int, JumpTableInfo>

  const CURR_PC: string := "INS_currPC"
  const SWITCH_CNT: string := "INS_switch_cnt"
  const SWITCH_DEFAULT: string := "INS_switch_default"
  const SWITCH_IDX_START: string := "INS_switch_idx_start"
  const CASE_PREFIX: string := "INS_switch_case"

  /** The name `INS_switch_case%d` gives case `i`. */
  function CaseKey(i: nat): (k: string)
    ensures |k| > |CASE_PREFIX| && k[..|CASE_PREFIX|] == CASE_PREFIX
  {
    CASE_PREFIX + Decimal(i)
  }

  /** Different cases get different names. */
  lemma CaseKeyInjective(i: nat, j: nat)
    ensures CaseKey(i) == CaseKey(j) ==> i == j
  {
    if CaseKey(i) == CaseKey(j) {
      assert Decimal(i) == CaseKey(i)[|CASE_PREFIX|..];
      assert Decimal(j) == CaseKey(j)[|CASE_PREFIX|..];
      DecimalInjective(i, j);
    }
  }

  /** No case name is one of the fixed names the pass reads or writes. */
  lemma CaseKeyIsNew(i: nat)
    ensures CaseKey(i) != CURR_PC && CaseKey(i) != SWITCH_CNT
    ensures CaseKey(i) != SWITCH_DEFAULT && CaseKey(i) != SWITCH_IDX_START
  {
    var k := CaseKey(i);
    assert k[11] == CASE_PREFIX[11] == 'c';
    assert |SWITCH_CNT| == 14 && |CURR_PC| == 10;
    assert SWITCH_DEFAULT[11] == 'd' && SWITCH_IDX_START[11] == 'i';
  }

  /** `cnt_entries`: the number of table entries. */
  function EntryCount(info: JumpTableInfo): (n: int) {
    1 + info.idxStop - info.idxStart
  }

  /** `base_table + mul * i` with `mul == 4`, as a `uint64_t`. */
  function EntryAddr(info: JumpTableInfo, i: nat): (a: U64) {
    (info.baseTable + 4 * i) % U64_LIMIT
  }

  /** Every entry's 4-byte read passes the read's assertions. */
  predicate EntriesFit(pools: seq<MemoryPool>, info: JumpTableInfo) {
    forall i :: 0 <= i < EntryCount(info) ==> LookupFits(pools, EntryAddr(info, i), 4)
  }

  /** Case `i`'s target: the 4-byte `getMemoryValue` at its entry. */
  function EntryValue(pools: seq<MemoryPool>, info: JumpTableInfo, i: nat, isBigEndian: bool): (v: U64)
    requires AllValid(pools) && i < EntryCount(info) && EntriesFit(pools, info)
  {
    MemoryValue(pools, EntryAddr(info, i), 4, isBigEndian)
  }

  /** Every case's target, in index order. */
  function CaseTargets(pools: seq<MemoryPool>, info: JumpTableInfo, isBigEndian: bool): (t: seq<int>)
    requires AllValid(pools) && EntriesFit(pools, info)
  {
    seq(if EntryCount(info) < 0 then 0 else EntryCount(info), i requires 0 <= i < EntryCount(info) => EntryValue(pools, info, i, isBigEndian))
  }

  /** Case `i`'s target is the four bytes at `base_table + 4*i` (modulo
      2^64) in the first pool that contains that address, assembled in the
      requested byte order, and `0xdeadbeef` when no pool contains it. */
  lemma CaseTargetsRead(pools: seq<MemoryPool>, info: JumpTableInfo, isBigEndian: bool, i: nat)
    requires AllValid(pools) && EntriesFit(pools, info) && i < EntryCount(info)
    ensures |CaseTargets(pools, info, isBigEndian)| == EntryCount(info)
    ensures var a := (info.baseTable + 4 * i) % U64_LIMIT;
      forall k :: 0 <= k < |pools| && pools[k].Inside(a) && (forall j :: 0 <= j < k ==> !pools[j].Inside(a)) ==>
        && pools[k].ReadOk(a, 4)
        && CaseTargets(pools, info, isBigEndian)[i]
             == if isBigEndian then BigEndian(pools[k].Window(a, 4)) else LittleEndian(pools[k].Window(a, 4))
    ensures var a := (info.baseTable + 4 * i) % U64_LIMIT;
      (forall k :: 0 <= k < |pools| ==> !pools[k].Inside(a)) ==> CaseTargets(pools, info, isBigEndian)[i] == UNMAPPED_VALUE
  {
    var a := EntryAddr(info, i);
    var t := CaseTargets(pools, info, isBigEndian);
    assert t[i] == MemoryValue(pools, a, 4, isBigEndian);
    forall k | 0 <= k < |pools| && pools[k].Inside(a) && (forall j :: 0 <= j < k ==> !pools[j].Inside(a))
      ensures pools[k].ReadOk(a, 4)
      ensures t[i] == if isBigEndian then BigEndian(pools[k].Window(a, 4)) else LittleEndian(pools[k].Window(a, 4))
    {
      FindPoolFirst(pools, a, k);
    }
  }



  /** `meta` with the first `n` case targets set, in index order. */
  function WithCases(meta: Metadata, targets: seq<int>, n: nat): (m: Metadata)
    requires n <= |targets|
  {
    if n == 0 then meta else WithCases(meta, targets, n - 1)[CaseKey(n - 1) := targets[n - 1]]
  }

  /** Only the first `n` targets matter. */
  lemma {:induction false} WithCasesPrefix(meta: Metadata, t1: seq<int>, t2: seq<int>, n: nat)
    requires n <= |t1| && n <= |t2| && t1[..n] == t2[..n]
    ensures WithCases(meta, t1, n) == WithCases(meta, t2, n)
  {
    if n > 0 {
      assert t1[..n - 1] == t1[..n][..n - 1] && t2[..n - 1] == t2[..n][..n - 1];
      assert t1[n - 1] == t1[..n][n - 1];
      assert t2[n - 1] == t2[..n][n - 1];
      WithCasesPrefix(meta, t1, t2, n - 1);
    }
  }

  /** `meta` with the count, default and start set first, then every case. */
  function DispatchMeta(meta: Metadata, pools: seq<MemoryPool>, info: JumpTableInfo, isBigEndian: bool): (m: Metadata)
    requires AllValid(pools) && EntryCount(info) >= 1 && EntriesFit(pools, info)
  {
    var fixed := meta[SWITCH_CNT := EntryCount(info)][SWITCH_DEFAULT := info.defaultCasePc][SWITCH_IDX_START := info.idxStart];
    WithCases(fixed, CaseTargets(pools, info, isBigEndian), EntryCount(info))
  }

  /** A name the annotation of a table with `n` entries writes. */
  predicate NewKey(k: string, n: int) {
    k == SWITCH_CNT || k == SWITCH_DEFAULT || k == SWITCH_IDX_START || exists i :: 0 <= i < n && k == CaseKey(i)
  }

  /** After `WithCases`, case `i < n` holds its target. */
  lemma {:induction false} WithCasesValues(meta: Metadata, targets: seq<int>, n: nat)
    requires n <= |targets|
    ensures var w := WithCases(meta, targets, n);
      forall i :: 0 <= i < n ==> CaseKey(i) in w && w[CaseKey(i)] == targets[i]
  {
    if n > 0 {
      WithCasesValues(meta, targets, n - 1);
      forall i | 0 <= i < n - 1 {
        CaseKeyInjective(i, n - 1);
      }
    }
  }

  /** After `WithCases`, the names are those of `meta` and the first `n`
      cases. */
  lemma {:induction false} WithCasesKeys(meta: Metadata, targets: seq<int>, n: nat)
    requires n <= |targets|
    ensures var w := WithCases(meta, targets, n);
      forall k :: k in w <==> k in meta || exists i :: 0 <= i < n && k == CaseKey(i)
  {
    if n > 0 {
      WithCasesKeys(meta, targets, n - 1);
      var w' := WithCases(meta, targets, n - 1);
      var w := WithCases(meta, targets, n);
      assert w == w'[CaseKey(n - 1) := targets[n - 1]];
      forall k ensures k in w <==> k in meta || exists i :: 0 <= i < n && k == CaseKey(i) {
        assert k in w' <==> k in meta || exists i :: 0 <= i < n - 1 && k == CaseKey(i);
        if k == CaseKey(n - 1) {
          assert exists i :: 0 <= i < n && k == CaseKey(i);
        } else if exists i :: 0 <= i < n && k == CaseKey(i) {
          var i :| 0 <= i < n && k == CaseKey(i);
          assert i < n - 1;
        }
      }
    }
  }

  /** `WithCases` leaves every name that is not one of the first `n`
      cases as it was. */
  lemma {:induction false} WithCasesKeepsOthers(meta: Metadata, targets: seq<int>, n: nat)
    requires n <= |targets|
    ensures var w := WithCases(meta, targets, n);
      forall k :: k in meta && (forall i :: 0 <= i < n ==> k != CaseKey(i)) ==> k in w && w[k] == meta[k]
  {
    if n > 0 {
      WithCasesKeepsOthers(meta, targets, n - 1);
    }
  }

  /** Setting the count, default and start, then `n` cases: each name
      written holds what was written to it, and every other name keeps its
      value. */
  lemma AnnotationContents(meta: Metadata, n: nat, dflt: int, start: int, targets: seq<int>)
    requires n <= |targets|
    ensures var m := WithCases(meta[SWITCH_CNT := n][SWITCH_DEFAULT := dflt][SWITCH_IDX_START := start], targets, n);
      && SWITCH_CNT in m && m[SWITCH_CNT] == n
      && SWITCH_DEFAULT in m && m[SWITCH_DEFAULT] == dflt
      && SWITCH_IDX_START in m && m[SWITCH_IDX_START] == start
      && (forall i :: 0 <= i < n ==> CaseKey(i) in m && m[CaseKey(i)] == targets[i])
      && (forall k :: k in m <==> k in meta || NewKey(k, n))
      && (forall k :: k in meta && !NewKey(k, n) ==> m[k] == meta[k])
  {
    var fixed := meta[SWITCH_CNT := n][SWITCH_DEFAULT := dflt][SWITCH_IDX_START := start];
    WithCasesValues(fixed, targets, n);
    WithCasesKeys(fixed, targets, n);
    WithCasesKeepsOthers(fixed, targets, n);
    forall i: nat | i < n {
      CaseKeyIsNew(i);
    }
  }

  /** The metadata of an annotated dispatch store: the entry count, the
      default target, the first index and each case's target, every other
      name as it was. */
  lemma DispatchMetaContents(meta: Metadata, pools: seq<MemoryPool>, info: JumpTableInfo, isBigEndian: bool)
    requires AllValid(pools) && EntryCount(info) >= 1 && EntriesFit(pools, info)
    ensures var m := DispatchMeta(meta, pools, info, isBigEndian);
      && SWITCH_CNT in m && m[SWITCH_CNT] == EntryCount(info)
      && SWITCH_DEFAULT in m && m[SWITCH_DEFAULT] == info.defaultCasePc
      && SWITCH_IDX_START in m && m[SWITCH_IDX_START] == info.idxStart
      && (forall i :: 0 <= i < EntryCount(info) ==> CaseKey(i) in m && m[CaseKey(i)] == EntryValue(pools, info, i, isBigEndian))
      && (forall k :: k in m <==> k in meta || NewKey(k, EntryCount(info)))
      && (forall k :: k in meta && !NewKey(k, EntryCount(info)) ==> m[k] == meta[k])
  {
    AnnotationContents(meta, EntryCount(info), info.defaultCasePc, info.idxStart, CaseTargets(pools, info, isBigEndian));
  }

  /** An entry no pool maps is recorded as `0xdeadbeef`. */
  lemma UnmappedEntryIsSentinel(meta: Metadata, pools: seq<MemoryPool>, info: JumpTableInfo, isBigEndian: bool, i: nat)
    requires AllValid(pools) && EntryCount(info) >= 1 && EntriesFit(pools, info) && i < EntryCount(info)
    requires forall k :: 0 <= k < |pools| ==> !pools[k].Inside(EntryAddr(info, i))
    ensures var m := DispatchMeta(meta, pools, info, isBigEndian);
      CaseKey(i) in m && m[CaseKey(i)] == UNMAPPED_VALUE
  {
    DispatchMetaContents(meta, pools, info, isBigEndian);
  }

  /** Annotating already annotated metadata again changes nothing. */
  lemma DispatchMetaIdempotent(meta: Metadata, pools: seq<MemoryPool>, info: JumpTableInfo, isBigEndian: bool)
    requires AllValid(pools) && EntryCount(info) >= 1 && EntriesFit(pools, info)
    ensures var m := DispatchMeta(meta, pools, info, isBigEndian);
      DispatchMeta(m, pools, info, isBigEndian) == m
  {
    var m := DispatchMeta(meta, pools, info, isBigEndian);
    var m2 := DispatchMeta(m, pools, info, isBigEndian);
    DispatchMetaContents(meta, pools, info, isBigEndian);
    DispatchMetaContents(m, pools, info, isBigEndian);
    assert m2.Keys == m.Keys;
    forall k | k in m ensures m2[k] == m[k] {
      if exists i :: 0 <= i < EntryCount(info) && k == CaseKey(i) {
        var i :| 0 <= i < EntryCount(info) && k == CaseKey(i);
        assert m2[CaseKey(i)] == m[CaseKey(i)];
      }
    }
  }

  /** A store the second loop looks at: to the global `PC`, with an
      `INS_currPC` annotation. */
  predicate IsPcStore(ins: Instr) {
    ins.Store? && ins.ptr == Global("PC") && CURR_PC in ins.meta
  }

  /** A store the second loop annotates: its PC has a jump table. */
  predicate IsDispatch(jt: JumpTables, ins: Instr) {
    IsPcStore(ins) && ins.meta[CURR_PC] in jt
  }

  /** One iteration of the second loop; `None` when the process aborts
      there (fewer than one entry, or an entry's read fails its
      assertions). */
  function AnnotateInstr(pools: seq<MemoryPool>, jt: JumpTables, isBigEndian: bool, ins: Instr): (r: Option<Instr>)
    requires AllValid(pools)
  {
    if !IsDispatch(jt, ins) then Some(ins)
    else
      var info := jt[ins.meta[CURR_PC]];
      if EntryCount(info) < 1 || !EntriesFit(pools, info) then None
      else Some(ins.(meta := DispatchMeta(ins.meta, pools, info, isBigEndian)))
  }

  /** What one iteration does: only dispatch stores change, only in their
      metadata, and they abort exactly when the table has no entry or an
      entry does not fit its pool. */
  lemma AnnotateInstrSpec(pools: seq<MemoryPool>, jt: JumpTables, isBigEndian: bool, ins: Instr)
    requires AllValid(pools)
    ensures !IsDispatch(jt, ins) ==> AnnotateInstr(pools, jt, isBigEndian, ins) == Some(ins)
    ensures IsDispatch(jt, ins) ==>
      (AnnotateInstr(pools, jt, isBigEndian, ins).None? <==>
        EntryCount(jt[ins.meta[CURR_PC]]) < 1 || !EntriesFit(pools, jt[ins.meta[CURR_PC]]))
    ensures AnnotateInstr(pools, jt, isBigEndian, ins).Some? ==>
      var a := AnnotateInstr(pools, jt, isBigEndian, ins).value;
      && a.Store? == ins.Store?
      && (a.Store? ==> a.value == ins.value && a.ptr == ins.ptr && forall k :: k in ins.meta ==> k in a.meta)
      && (a.Store? && CURR_PC in ins.meta ==> a.meta[CURR_PC] == ins.meta[CURR_PC])
      && (!a.Store? ==> a == ins)
      && Operands(a) == Operands(ins)
  {
    if IsDispatch(jt, ins) {
      var info := jt[ins.meta[CURR_PC]];
      if EntryCount(info) >= 1 && EntriesFit(pools, info) {
        DispatchMetaContents(ins.meta, pools, info, isBigEndian);
        CaseKeyIsNew(0);
        forall i: nat | i < EntryCount(info) {
          CaseKeyIsNew(i);
        }
      }
    }
  }

  /** An annotated instruction is left as it is by a second annotation. */
  lemma AnnotateInstrIdempotent(pools: seq<MemoryPool>, jt: JumpTables, isBigEndian: bool, ins: Instr)
    requires AllValid(pools) && AnnotateInstr(pools, jt, isBigEndian, ins).Some?
    ensures var a := AnnotateInstr(pools, jt, isBigEndian, ins).value;
      AnnotateInstr(pools, jt, isBigEndian, a) == Some(a)
  {
    AnnotateInstrSpec(pools, jt, isBigEndian, ins);
    if IsDispatch(jt, ins) {
      DispatchMetaIdempotent(ins.meta, pools, jt[ins.meta[CURR_PC]], isBigEndian);
    }
  }

  /** The second loop over the whole body; `None` when it aborts. */
  function AnnotateAll(pools: seq<MemoryPool>, jt: JumpTables, isBigEndian: bool, body: seq<Instr>): (r: Option<seq<Instr>>)
    requires AllValid(pools)
  {
    if body == [] then Some([])
    else match AnnotateInstr(pools, jt, isBigEndian, body[0])
      case None => None
      case Some(a) =>
        match AnnotateAll(pools, jt, isBigEndian, body[1..])
        case None => None
        case Some(rest) => Some([a] + rest)
  }

  /** The loop annotates each instruction on its own: it aborts iff some
      instruction aborts, and otherwise puts each instruction's
      annotation in its place. */
  lemma {:induction false} AnnotateAllPointwise(pools: seq<MemoryPool>, jt: JumpTables, isBigEndian: bool, body: seq<Instr>)
    requires AllValid(pools)
    ensures AnnotateAll(pools, jt, isBigEndian, body).Some? <==>
      forall k :: 0 <= k < |body| ==> AnnotateInstr(pools, jt, isBigEndian, body[k]).Some?
    ensures AnnotateAll(pools, jt, isBigEndian, body).Some? ==>
      var r := AnnotateAll(pools, jt, isBigEndian, body).value;
      |r| == |body| && forall k :: 0 <= k < |body| ==> Some(r[k]) == AnnotateInstr(pools, jt, isBigEndian, body[k])
  {
    if body != [] {
      AnnotateAllPointwise(pools, jt, isBigEndian, body[1..]);
      if AnnotateInstr(pools, jt, isBigEndian, body[0]).Some? && AnnotateAll(pools, jt, isBigEndian, body[1..]).None? {
        var k :| 0 <= k < |body[1..]| && AnnotateInstr(pools, jt, isBigEndian, body[1..][k]).None?;
        assert body[k + 1] == body[1..][k];
      }
    }
  }

  /** With no jump tables, the second loop changes nothing. */
  lemma {:induction false} AnnotateAllWithoutTables(pools: seq<MemoryPool>, isBigEndian: bool, body: seq<Instr>)
    requires AllValid(pools)
    ensures AnnotateAll(pools, map[], isBigEndian, body) == Some(body)
  {
    if body != [] {
      AnnotateAllWithoutTables(pools, isBigEndian, body[1..]);
      assert [body[0]] + body[1..] == body;
    }
  }

  /** A table whose last index is below its first has no entry; its
      dispatch store aborts the pass. */
  lemma EmptyTableAborts(pools: seq<MemoryPool>, isBigEndian: bool)
    requires AllValid(pools)
    ensures var info := JumpTableInfo(0x500, 3, 1, 0x1000, 0x2030);
      AnnotateInstr(pools, map[0x500 := info], isBigEndian, Store(Ref(7), Global("PC"), map[CURR_PC := 0x500])).None?
  {
  }

  /** A table of three little-endian targets, 0x2000, 0x2010 and 0x2020. */
  const EXAMPLE_TABLE: seq<Byte> := [0x00, 0x20, 0x00, 0x00, 0x10, 0x20, 0x00, 0x00, 0x20, 0x20, 0x00, 0x00]
  const EXAMPLE_POOL: MemoryPool := MemoryPool("table.bin", 0x1000, 0x100c, EXAMPLE_TABLE)
  /** Indices 0 to 2, the table at 0x1000, the default case at 0x2030. */
  const EXAMPLE_INFO: JumpTableInfo := JumpTableInfo(0x500, 0, 2, 0x1000, 0x2030)

  /** Entry `i` of the example table: the pool holds all four bytes. */
  lemma ExampleWindow(i: nat)
    requires i < 3
    ensures EXAMPLE_POOL.Valid() && EXAMPLE_POOL.ReadOk(0x1000 + 4 * i, 4)
    ensures EXAMPLE_POOL.Window(0x1000 + 4 * i, 4) == EXAMPLE_TABLE[4 * i..4 * i + 4]
    ensures FindPool([EXAMPLE_POOL], 0x1000 + 4 * i) == Some(0)
    ensures EntryAddr(EXAMPLE_INFO, i) == 0x1000 + 4 * i
  {
  }

  lemma ExampleFits()
    ensures AllValid([EXAMPLE_POOL]) && EntriesFit([EXAMPLE_POOL], EXAMPLE_INFO)
  {
    forall i | 0 <= i < 3 ensures LookupFits([EXAMPLE_POOL], EntryAddr(EXAMPLE_INFO, i), 4) {
      ExampleWindow(i);
    }
  }

  /** Entry `i` of the example table reads its own four bytes. */
  lemma ExampleRead(i: nat)
    requires i < 3
    ensures AllValid([EXAMPLE_POOL]) && EntriesFit([EXAMPLE_POOL], EXAMPLE_INFO)
    ensures EntryValue([EXAMPLE_POOL], EXAMPLE_INFO, i, false) == LittleEndian(EXAMPLE_TABLE[4 * i..4 * i + 4])
  {
    ExampleFits();
    ExampleWindow(i);
  }

  /** Entry `i` of the example table, read little-endian, is 0x2000 + 0x10 * i. */
  lemma ExampleEntry(i: nat)
    requires i < 3
    ensures AllValid([EXAMPLE_POOL]) && EntriesFit([EXAMPLE_POOL], EXAMPLE_INFO)
    ensures EntryValue([EXAMPLE_POOL], EXAMPLE_INFO, i, false) == 0x2000 + 0x10 * i
  {
    ExampleRead(i);
    if i == 0 {
      assert EXAMPLE_TABLE[0..4] == [0x00, 0x20, 0x00, 0x00];
      LittleEndianFour(0x00, 0x20, 0x00, 0x00);
    } else if i == 1 {
      assert EXAMPLE_TABLE[4..8] == [0x10, 0x20, 0x00, 0x00];
      LittleEndianFour(0x10, 0x20, 0x00, 0x00);
    } else {
      assert EXAMPLE_TABLE[8..12] == [0x20, 0x20, 0x00, 0x00];
      LittleEndianFour(0x20, 0x20, 0x00, 0x00);
    }
  }

  /** The dispatch store at PC 0x500 of the example table gets three
      entries, the default 0x2030, the first index 0 and the three targets. */
  lemma ThreeEntryTable()
    ensures AllValid([EXAMPLE_POOL])
    ensures var ins := Store(Ref(7), Global("PC"), map[CURR_PC := 0x500]);
      var r := AnnotateInstr([EXAMPLE_POOL], map[0x500 := EXAMPLE_INFO], false, ins);
      && r.Some?
      && var m := r.value.meta;
      && SWITCH_CNT in m && m[SWITCH_CNT] == 3
      && SWITCH_DEFAULT in m && m[SWITCH_DEFAULT] == 0x2030
      && SWITCH_IDX_START in m && m[SWITCH_IDX_START] == 0
      && CaseKey(0) in m && m[CaseKey(0)] == 0x2000
      && CaseKey(1) in m && m[CaseKey(1)] == 0x2010
      && CaseKey(2) in m && m[CaseKey(2)] == 0x2020
  {
    ExampleEntry(0);
    ExampleEntry(1);
    ExampleEntry(2);
    var ins := Store(Ref(7), Global("PC"), map[CURR_PC := 0x500]);
    assert EntryCount(EXAMPLE_INFO) == 3;
    assert AnnotateInstr([EXAMPLE_POOL], map[0x500 := EXAMPLE_INFO], false, ins)
      == Some(ins.(meta := DispatchMeta(ins.meta, [EXAMPLE_POOL], EXAMPLE_INFO, false)));
    DispatchMetaContents(ins.meta, [EXAMPLE_POOL], EXAMPLE_INFO, false);
  }
}
