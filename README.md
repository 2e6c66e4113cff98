# ReplaceConstantLoads, modelled in Dafny

`ReplaceConstantLoads` is an LLVM function pass in bin2llvm's translator
post-processing.

It is configured with:
- a list of memory descriptors `"<file>@<hex address>"`, each mapping the
  bytes of a file at an address (a *memory pool*);
- optionally, a file of jump-table descriptions;
- an endianness flag.

It rewrites each function in three phases:

1. **Load resolution.** A call to one of the soft-MMU load helpers
   `__ldl_mmu`, `__lds_mmu` or `__ldb_mmu` must have exactly two arguments,
   and its first must be a constant address. If a pool contains that
   address, the pool's bytes are read. Width is 4, 2 or 1 bytes, in the
   configured byte order. Every use of the call's result is replaced by
   that constant, and the call is queued for erasure. A load whose address
   no pool contains stays where it is.
2. **Jump-table annotation.** A store to the global `PC` that carries
   `INS_currPC` metadata, and whose PC has a jump table, gets these entries:
   - `INS_switch_cnt`, `INS_switch_default` and `INS_switch_idx_start`;
   - one `INS_switch_case<i>` per table entry, holding the 4-byte value
     read at `base_table + 4*i`, or `0xdeadbeef` where no pool maps that
     entry.
3. **Deferred erase.** The queued calls are erased, and the pass reports a
   change exactly when it erased something.

## How the model is organised

| module | file | what it holds |
|---|---|---|
| `Wrappers` | wrappers.dfy | `Option` |
| `Bytes` | bytes.dfy | 64-bit words and bytes, big- and little-endian assembly and their laws |
| `Numerals` | numerals.dfy | hexadecimal digits (`strtoll`'s base 16) and decimal printing (`%d` in the case names) |
| `Pools` | pools.dfy | `MemoryPool` (`inside`, `read`) and first-match lookup across pools (`getMemoryValue`) |
| `Descriptors` | descriptors.dfy | splitting a descriptor at its last `@`, parsing the address, `getMemoryPool` |
| `Ir` | ir.dfy | the instruction stream of a function, and `replaceAllUsesWith` |
| `Erase` | erase.dfy | the deferred erase: which positions remain, and in what order |
| `Resolve` | resolve.dfy | the first loop of `runOnFunction`, one instruction at a time and as a whole |
| `Annotate` | annotate.dfy | the second loop: the metadata a dispatch store gets |
| `Pass` | pass.dfy | the pass object as a class: `initialize`, both `getMemoryValue` overloads and `runOnFunction`, written as loops and proved against the functions above |
| `Properties` | properties.dfy | what one run does to a whole function, and when a second run is a no-op |

### Modelling decisions

- **Words.** `uint64_t` arithmetic is written out modulo 2^64:
  - the pool end is `(start + length) mod 2^64`;
  - `read`'s last-byte check is `inside((addr + n - 1) mod 2^64)`;
  - `ret << 8` drops the top byte, which is provably never set;
  - a table entry's address is `(base_table + 4*i) mod 2^64`.
- **Files.** A file's length is below 2^63 (`tellg` is signed).
- **Assertion failures abort the process.** In the spec functions they are
  `None`; in the methods they are `ok == false` or `Outcome.Aborted`.
  Each of these is an assertion failure:
  - `read`'s four assertions;
  - `cnt_entries >= 1`;
  - a descriptor without `@`, or one naming a file that cannot be opened.
- **A `NULL` callee is treated as an abort.** On a load-shaped call whose
  `getCalledFunction()` is `NULL` (an indirect call), the code at
  ReplaceConstantLoads.cpp:180 dereferences a null pointer. That is
  undefined behaviour and a crash in practice, not an assertion. The model
  treats it as an abort, like the assertion failures.
- **Failed reads end the process.** The code does not skip a bad site or
  roll its changes back: every check on a read or a table is an `assert`,
  which ends the process. So in the model:
  - a straddling read aborts;
  - an empty table aborts;
  - a table entry that straddles a pool end aborts after the count,
    default and start keys have already been set.
- **Idempotence depends on layout order.** A second run over the output
  resolves nothing new if no call uses the result of a call placed after
  it in block order. `replaceAllUsesWith` rewrites every use, earlier ones
  included. But when a load's address only becomes constant through a
  later load, the scan has already passed the earlier call, so only a
  later run resolves it:
  - `Properties.RunIdempotent` proves the no-op under that hypothesis;
  - `Properties.ForwardUseFirstRun` and `Properties.ForwardUseSecondRun`
    give a two-call function whose second run still resolves a load.
- **`hasJumpTableInfo`** is set by `initialize` but never read by
  `runOnFunction`. The model keeps it as a field.
- **The function body** is its instructions, block after block, as a
  sequence. Positions stand for instruction pointers. The erase list
  holds positions, which are strictly increasing. The erase loop removes
  each one `k` places lower once `k` have gone.
- **Instructions:**
  - a call has a result id, an optional callee name and its arguments;
  - a store has a value, a pointer and its metadata;
  - any other instruction has an id and operands.
- **Operands:**
  - a constant has a width and a value;
  - a reference is to an instruction's result;
  - a global is referenced by name.
- **Metadata** maps a name to an integer. Hex formatting of the values is
  left out.

## Model

| member | source | states |
|---|---|---|
| Bytes.LittleEndianIsReversedBigEndian | postprocess/translator/ReplaceConstantLoads.cpp:92-107 | the little-endian read of a window is the big-endian read of the window reversed |
| Bytes.BigEndianOfBytes | postprocess/translator/ReplaceConstantLoads.cpp:106 | big-endian assembly of the n-byte encoding of any v < 256^n gives v back |
| Bytes.BytesOfBigEndian | postprocess/translator/ReplaceConstantLoads.cpp:106 | encoding the big-endian value of n bytes in n bytes gives the bytes back, so assembly loses nothing |
| Bytes.BigEndianAppend | postprocess/translator/ReplaceConstantLoads.cpp:106 | the bytes read first weigh 256^(number of later bytes) |
| Bytes.LittleEndianAppend | postprocess/translator/ReplaceConstantLoads.cpp:92-107 | the bytes read later weigh 256^(number of earlier bytes) |
| Bytes.EndiannessExample | postprocess/translator/ReplaceConstantLoads.cpp:92-107 | bytes 01 02 03 04 read as 0x01020304 big-endian and 0x04030201 little-endian |
| Numerals.HexRoundTrip | postprocess/translator/ReplaceConstantLoads.cpp:121 | the hexadecimal digits of any value parse back to it |
| Numerals.DecimalRoundTrip | postprocess/translator/ReplaceConstantLoads.cpp:254 | the `%d` text of a case index parses back to the index |
| Numerals.DecimalInjective | postprocess/translator/ReplaceConstantLoads.cpp:254 | distinct case indices print differently |
| Pools.MemoryPool.Inside | postprocess/translator/ReplaceConstantLoads.cpp:75-78 | `inside`: the address is at least the start and below the end, both compared as unsigned 64-bit words |
| Pools.MemoryPool.InsideIsFileOffset | postprocess/translator/ReplaceConstantLoads.cpp:66-78 | `inside(addr)` holds iff addr - start is an offset into the file; a pool whose end wraps past 2^64 contains nothing |
| Pools.MemoryPool.ReadWithinFile | postprocess/translator/ReplaceConstantLoads.cpp:87-90 | a read the four assertions admit lies wholly within the file, even though the last-byte check wraps modulo 2^64 |
| Pools.MemoryPool.Read | postprocess/translator/ReplaceConstantLoads.cpp:80-112 | the loop returns the window big-endian or little-endian as requested, and the result is below 256^n |
| Pools.ReadValue | postprocess/translator/ReplaceConstantLoads.cpp:92-107 | a read of n bytes is below 256^n |
| Pools.FindPool | postprocess/translator/ReplaceConstantLoads.cpp:279-287 | the index found contains the address and no earlier pool does; when none is found, no pool contains it |
| Pools.FindPoolUnique | postprocess/translator/ReplaceConstantLoads.cpp:279-287 | when exactly one pool contains the address, lookup finds that pool, whatever the order |
| Pools.MemoryValue | postprocess/translator/ReplaceConstantLoads.cpp:279-288 | `getMemoryValue`: the read from the first pool containing the address, or `0xdeadbeef` when none does |
| Pools.LookupFindsFirstPool | postprocess/translator/ReplaceConstantLoads.cpp:279-288 | a lookup yields a value iff some pool contains the address, and it is the read from the first such pool |
| Descriptors.LastIndexOf | postprocess/translator/ReplaceConstantLoads.cpp:117 | `rfind`: the position holds `c` and no later one does; none iff `c` does not occur |
| Descriptors.SplitRoundTrip | postprocess/translator/ReplaceConstantLoads.cpp:117-120 | `path@text` with no `@` in text splits back into path (which may contain `@`) and text |
| Descriptors.ParseAddressOfHex | postprocess/translator/ReplaceConstantLoads.cpp:121 | printed hex, with or without `0x`, parses back to the value, saturated at `LLONG_MAX` |
| Descriptors.GetMemoryPool | postprocess/translator/ReplaceConstantLoads.cpp:57-72 | the pool built from a descriptor has end = start + length modulo 2^64 |
| Descriptors.PoolOfDescriptor | postprocess/translator/ReplaceConstantLoads.cpp:114-127 | `path@0x<a>` maps that file's bytes at a and contains exactly the addresses a to a + length - 1 |
| Ir.SubstInstrSpec | postprocess/translator/ReplaceConstantLoads.cpp:199 | replacing uses of x in an instruction turns each `Ref(x)` operand into the constant, keeps every other operand and the rest of the instruction, leaves no use of x and creates no new use |
| Ir.ReplaceAllUsesWithSpec | postprocess/translator/ReplaceConstantLoads.cpp:199 | across the body no use of x remains, no use is created, and instructions not using x are unchanged |
| Erase.RemoveAt | postprocess/translator/ReplaceConstantLoads.cpp:264 | erasing one instruction shifts the later ones down by one and keeps the earlier ones |
| Erase.WithoutLength | postprocess/translator/ReplaceConstantLoads.cpp:261-265 | erasing k distinct positions leaves |body| - k instructions |
| Erase.WithoutIsKept | postprocess/translator/ReplaceConstantLoads.cpp:261-265 | the remaining instructions are exactly those at the kept positions, in order |
| Erase.KeptSpec | postprocess/translator/ReplaceConstantLoads.cpp:261-265 | the kept positions are increasing and are exactly the positions not queued |
| Erase.WithoutAppend | postprocess/translator/ReplaceConstantLoads.cpp:261-265 | erasing one more, higher position is removing what now sits \|erased so far\| places lower |
| Resolve.LoadBits | postprocess/translator/ReplaceConstantLoads.cpp:180-189 | a load helper's width is 8, 16 or 32 bits |
| Resolve.MemoryConstantIsRead | postprocess/translator/ReplaceConstantLoads.cpp:291-306 | the typed lookup is `NULL` iff no pool contains the address; otherwise it is the `bitWidth/8`-byte read of the first pool, and `ConstantInt::get` cuts nothing off |
| Resolve.ResolveAt | postprocess/translator/ReplaceConstantLoads.cpp:168-201 | one iteration of the first loop; it keeps the body's length |
| Resolve.ResolveAtSpec | postprocess/translator/ReplaceConstantLoads.cpp:168-201 | non-candidates and unmapped loads are untouched and not queued; a `NULL` callee or a failed read aborts; a resolved load has its uses replaced by the value read and its position queued |
| Resolve.ResolveAtStep | postprocess/translator/ReplaceConstantLoads.cpp:190-201 | one step either queues its own position or changes nothing at all, and then the instruction is settled (no longer resolvable) |
| Resolve.ResolveFromRewrites | postprocess/translator/ReplaceConstantLoads.cpp:162-203 | the first loop keeps each instruction's kind, id, callee, global pointer and metadata, keeps every constant operand and creates no new use |
| Resolve.ResolveFromQueue | postprocess/translator/ReplaceConstantLoads.cpp:199-200 | the queue is increasing, each entry is a mapped load, and nothing in the body uses a queued call's result |
| Resolve.ResolveFromExtends | postprocess/translator/ReplaceConstantLoads.cpp:200 | the queue only grows, by positions at or after the current one |
| Resolve.ResolveFromFrame | postprocess/translator/ReplaceConstantLoads.cpp:162-203 | a call none of whose operands a later call defines is left exactly as it is |
| Resolve.ResolveFromSettles | postprocess/translator/ReplaceConstantLoads.cpp:190-198 | when no call uses a later call's result, every position the loop does not queue is left settled |
| Resolve.SettledBodyUnchanged | postprocess/translator/ReplaceConstantLoads.cpp:168-201 | a body of settled instructions is a fixed point of the first loop, with nothing queued |
| Annotate.CaseKeyInjective | postprocess/translator/ReplaceConstantLoads.cpp:253-255 | distinct indices give distinct `INS_switch_case<i>` names |
| Annotate.CaseKeyIsNew | postprocess/translator/ReplaceConstantLoads.cpp:238-255 | no case name is `INS_switch_cnt`, `INS_switch_default`, `INS_switch_idx_start` or `INS_currPC` |
| Annotate.CaseTargetsRead | postprocess/translator/ReplaceConstantLoads.cpp:247-249 | there is one target per entry; when every entry fits, case i's target is the 4-byte window at `base_table + 4*i` (mod 2^64) of the first pool containing that address, assembled in the requested byte order, or `0xdeadbeef` when no pool contains it |
| Annotate.WithCasesValues | postprocess/translator/ReplaceConstantLoads.cpp:247-255 | after n cases, case i < n holds the i-th target |
| Annotate.WithCasesKeys | postprocess/translator/ReplaceConstantLoads.cpp:247-255 | after n cases, the names are the old ones and the first n case names |
| Annotate.WithCasesKeepsOthers | postprocess/translator/ReplaceConstantLoads.cpp:247-255 | writing cases keeps every name that is not one of their case names |
| Annotate.AnnotationContents | postprocess/translator/ReplaceConstantLoads.cpp:238-257 | the count, default, start and each case hold what was written; the names are the old ones plus the new ones; other names keep their values |
| Annotate.DispatchMetaContents | postprocess/translator/ReplaceConstantLoads.cpp:230-257 | an annotated store has `INS_switch_cnt = 1 + idx_stop - idx_start`, the default, the first index, and case i = the lookup at `base_table + 4*i`; nothing else changes |
| Annotate.UnmappedEntryIsSentinel | postprocess/translator/ReplaceConstantLoads.cpp:248-249 | an entry no pool maps is recorded as `0xdeadbeef` |
| Annotate.DispatchMetaIdempotent | postprocess/translator/ReplaceConstantLoads.cpp:238-257 | annotating already annotated metadata with the same table changes nothing |
| Annotate.AnnotateInstr | postprocess/translator/ReplaceConstantLoads.cpp:213-257 | one iteration of the second loop: the dispatch annotation of one store, or an abort |
| Annotate.AnnotateInstrSpec | postprocess/translator/ReplaceConstantLoads.cpp:213-257 | a non-dispatch instruction is unchanged; a dispatch store aborts iff the count is below 1 or an entry straddles a pool end; otherwise only its metadata changes, keeping every old name and `INS_currPC` |
| Annotate.EmptyTableAborts | postprocess/translator/ReplaceConstantLoads.cpp:232-234 | a table with start index 3 and stop index 1 gives `cnt_entries == -1`, and annotating a store at its PC aborts |
| Annotate.AnnotateInstrIdempotent | postprocess/translator/ReplaceConstantLoads.cpp:213-257 | annotating an annotated instruction again changes nothing |
| Annotate.AnnotateAllPointwise | postprocess/translator/ReplaceConstantLoads.cpp:207-259 | the second loop aborts iff some instruction aborts, and otherwise annotates each instruction in its place |
| Annotate.AnnotateAllWithoutTables | postprocess/translator/ReplaceConstantLoads.cpp:227-228 | with no jump tables the second loop changes nothing |
| Annotate.ExampleEntry | postprocess/translator/ReplaceConstantLoads.cpp:247-249 | entry i of a table `00 20 00 00 10 20 00 00 20 20 00 00` at 0x1000 reads 0x2000 + 0x10*i little-endian |
| Annotate.ThreeEntryTable | postprocess/translator/ReplaceConstantLoads.cpp:230-257 | with that table, indices 0 to 2 and default 0x2030, the store at PC 0x500 gets count 3, default 0x2030, start 0 and targets 0x2000, 0x2010, 0x2020 |
| Pass.PoolsOf | postprocess/translator/ReplaceConstantLoads.cpp:131-136 | one valid pool per descriptor, in descriptor order |
| Pass.WithTablesLastWins | postprocess/translator/ReplaceConstantLoads.cpp:140-143 | a PC is in the map iff it was before or some loaded table has it; a PC loaded several times maps to its last table; others keep theirs |
| Pass.ReplaceConstantLoads.Initialize | postprocess/translator/ReplaceConstantLoads.cpp:129-155 | aborts iff some descriptor has no `@` or names a missing file; otherwise appends the descriptors' pools in order, and with a table file stores the list, enters it into the map and sets `hasJumpTableInfo`, without one clears the flag |
| Pass.ReplaceConstantLoads.GetMemoryValue | postprocess/translator/ReplaceConstantLoads.cpp:274-289 | the search loop returns the first containing pool's read, or `0xdeadbeef`; it aborts iff that read fails its assertions |
| Pass.ReplaceConstantLoads.GetMemoryConstant | postprocess/translator/ReplaceConstantLoads.cpp:291-306 | the search loop returns the first containing pool's `bitWidth/8`-byte read as a `bitWidth` constant, or `NULL`; it aborts iff that read fails its assertions |
| Pass.ReplaceConstantLoads.AnnotateDispatch | postprocess/translator/ReplaceConstantLoads.cpp:230-257 | aborts iff the count is below 1 or an entry straddles a pool end; otherwise returns the table's annotation; an abort in the entry loop happens after the count, default and start are set |
| Pass.ReplaceConstantLoads.ResolveLoads | postprocess/translator/ReplaceConstantLoads.cpp:157-203 | the first loop, over the body in place, aborts exactly when the first-loop function does, and otherwise leaves its body and erase list |
| Pass.ReplaceConstantLoads.AnnotateJumpTables | postprocess/translator/ReplaceConstantLoads.cpp:205-259 | the second loop, over the body in place, aborts exactly when the annotation of the whole body does, and otherwise leaves that annotation |
| Pass.ReplaceConstantLoads.EraseQueued | postprocess/translator/ReplaceConstantLoads.cpp:261-265 | erasing the queued instructions one after the other leaves the body without exactly those positions |
| Pass.ReplaceConstantLoads.RunOnFunction | postprocess/translator/ReplaceConstantLoads.cpp:157-272 | aborts exactly when the whole-run function does; otherwise the body and the returned flag are the run's |
| Properties.RunChanged | postprocess/translator/ReplaceConstantLoads.cpp:261-271 | the output is shorter by the number of queued calls, and `runOnFunction` returns true iff the queue is non-empty, iff the body got shorter |
| Pass.Run | postprocess/translator/ReplaceConstantLoads.cpp:157-272 | `runOnFunction` on values: the first loop, then the second, then the erase loop, with the returned flag |
| Properties.RunContents | postprocess/translator/ReplaceConstantLoads.cpp:205-265 | the output is the annotated body at exactly the positions not queued, in their original order |
| Properties.RunDropsOnlyResolvedLoads | postprocess/translator/ReplaceConstantLoads.cpp:190-201 | every erased instruction was a call to a load helper at a pooled address, and no remaining instruction refers to its result |
| Properties.RunOnSettledBody | postprocess/translator/ReplaceConstantLoads.cpp:157-272 | with no jump tables and no load left to resolve, the body is returned unchanged and the pass reports no change |
| Properties.RunIdempotent | postprocess/translator/ReplaceConstantLoads.cpp:157-272 | when no call uses the result of a later call, a second run over the output erases nothing, changes nothing and returns false |
| Properties.ForwardUseFirstRun | postprocess/translator/ReplaceConstantLoads.cpp:162-203 | a load whose address is the result of a later load is passed over by the first run, which resolves only the later one |
| Properties.ForwardUseSecondRun | postprocess/translator/ReplaceConstantLoads.cpp:162-203 | on that output a second run still resolves a load and returns true |

## Left out

- File I/O: opening, `tellg`, `seekg` and closing are left out. A pool holds
  its file's bytes, and the file system is a map from paths to contents.
- Logging through `outs()` is left out.
- Command-line options and pass registration are left out. The
  descriptors, the jump-table file name and the endianness flag are
  parameters.
- `JumpTableInfoFactory::loadFromFile` is a JSON loader that is outside
  this model. Its result is the parameter `loaded` of `Initialize`.
- `FixOverlappedBBs::hex` and `getHexMetadataFromIns` are left out.
  Metadata values are integers, not hex strings, so `INS_currPC` is read
  as a number.
- LLVM's `dyn_cast`, `ConstantInt::get`, `MDNode`, use lists and
  `eraseFromParent` are replaced by the instruction datatype and its
  functions. An instruction's result is referenced through its `id` field,
  as an operand `Ref(id)`. Positions in the flattened body identify
  instructions only for the erase list. Ids are not required to be
  distinct; a body with duplicate ids is one LLVM never produces.
- postprocess/translator/ReplaceConstantLoads.h is not part of this model.
  So the class constructor starts with empty pools and maps and a
  cleared flag, and field widths are taken from the code in the `.cpp`.
- The destructor only closes and frees the pools, and is left out.
- Initialize: `strtoll` is modelled only on hex digit strings, with or
  without `0x`/`0X`, saturating at `LLONG_MAX`. Other address text is
  excluded by a precondition. That leaves out signs, leading space, and
  stopping at the first non-hex character.
- Initialize: a file of 2^63 bytes or more is excluded by a precondition,
  because `tellg` is signed.
- AnnotateDispatch: `int cnt_entries`, `int i` and `int mul = 4` are
  unbounded integers here, and Annotate.EntryAddr computes `4*i` without
  overflow. In the code `mul*i` (ReplaceConstantLoads.cpp:233, 248) is an
  `int` product, which overflows once `i` reaches 2^29. A table with more
  than 2^29 entries is not modelled.
- Pools.MemoryPool.Read: `byteCnt` is a `uint8_t` in the code. The callers
  pass 1, 2 or 4, so its truncation is not modelled.
- RunIdempotent: proved only when no call uses the result of a call placed
  after it in block order. That hypothesis is sufficient, not necessary.
  Without it the claim can fail, as `ForwardUseFirstRun` and
  `ForwardUseSecondRun` show.
- Pass.ReplaceConstantLoads.AnnotateDispatch: when it aborts inside the
  entry loop, its contract pins down only the three fixed keys. It does
  not say which cases were already written, because the process ends
  there.
