/**
 * The slice of the IR the pass looks at: a function body flattened, block
 * after block, into one sequence of instructions whose operands are
 * constants, references to other instructions' results, or globals.
 */
module Ir {
  import opened Wrappers
  import opened Bytes

  /** An operand: an integer constant of a bit width (its zero-extended
      value), the result of the instruction with identity `id`, or a
      global variable. */
  datatype Operand = Const(bits: nat, value: U64) | Ref(id: nat) | Global(name: string)

  /** Instruction metadata: name to value (the hexadecimal text the lifter
      writes is represented by its number). */
  type Metadata = map<string, int>

  /** `callee` is `None` for a call through a pointer (`getCalledFunction()`
      is `NULL`). */
  datatype Instr =
    | Call(id: nat, callee: Option<string>, args: seq<Operand>)
    | Store(value: Operand, ptr: Operand, meta: Metadata)
    | Other(id: nat, operands: seq<Operand>)

  function Operands(ins: Instr): (ops: seq<Operand>) {
    match ins
    case Call(_, _, args) => args
    case Store(v, p, _) => [v, p]
    case Other(_, ops) => ops
  }

  predicate Uses(ins: Instr, x: nat) {
    Ref(x) in Operands(ins)
  }

  /** An instruction with its operands blanked out: what replacing
      operands can never change. */
  function Skeleton(ins: Instr): (sk: Instr) {
    match ins
    case Call(id, callee, args) => Call(id, callee, [])
    case Store(_, p, meta) => Store(Const(0, 0), if p.Global? then p else Const(0, 0), meta)
    case Other(id, _) => Other(id, [])
  }

  function SubstOperand(o: Operand, x: nat, c: Operand): (o': Operand) {
    if o == Ref(x) then c else o
  }

  function SubstOperands(os: seq<Operand>, x: nat, c: Operand): (r: seq<Operand>)
    ensures |r| == |os|
    ensures forall j :: 0 <= j < |os| ==> r[j] == SubstOperand(os[j], x, c)
  {
    seq(|os|, j requires 0 <= j < |os| => SubstOperand(os[j], x, c))
  }

  function SubstInstr(ins: Instr, x: nat, c: Operand): (r: Instr) {
    match ins
    case Call(id, callee, args) => Call(id, callee, SubstOperands(args, x, c))
    case Store(v, p, meta) => Store(SubstOperand(v, x, c), SubstOperand(p, x, c), meta)
    case Other(id, ops) => Other(id, SubstOperands(ops, x, c))
  }

  /** `replaceAllUsesWith`: every use of the result `x`, anywhere in the
      body, becomes `c`. */
  function ReplaceAllUsesWith(body: seq<Instr>, x: nat, c: Operand): (r: seq<Instr>)
    ensures |r| == |body|
    ensures forall k :: 0 <= k < |body| ==> r[k] == SubstInstr(body[k], x, c)
  {
    seq(|body|, k requires 0 <= k < |body| => SubstInstr(body[k], x, c))
  }

  /** Replacing one instruction's uses of `x` by a constant: each operand
      that was `Ref(x)` is now the constant, every other operand and the
      rest of the instruction stay as they were. */
  lemma SubstInstrSpec(ins: Instr, x: nat, c: Operand)
    requires c.Const?
    ensures |Operands(SubstInstr(ins, x, c))| == |Operands(ins)|
    ensures forall j :: 0 <= j < |Operands(ins)| ==>
      Operands(SubstInstr(ins, x, c))[j] == (if Operands(ins)[j] == Ref(x) then c else Operands(ins)[j])
    ensures Skeleton(SubstInstr(ins, x, c)) == Skeleton(ins)
    ensures !Uses(SubstInstr(ins, x, c), x)
    ensures forall y :: Uses(SubstInstr(ins, x, c), y) ==> Uses(ins, y)
    ensures !Uses(ins, x) ==> SubstInstr(ins, x, c) == ins
  {
    var r := SubstInstr(ins, x, c);
    assert forall j :: 0 <= j < |Operands(ins)| ==> Operands(r)[j] == SubstOperand(Operands(ins)[j], x, c);
    if !Uses(ins, x) {
      assert Operands(r) == Operands(ins);
    }
  }

  /** Across the body: no use of `x` is left, no use is created, and every
      instruction that did not use `x` is untouched. */
  lemma ReplaceAllUsesWithSpec(body: seq<Instr>, x: nat, c: Operand)
    requires c.Const?
    ensures forall k :: 0 <= k < |body| ==> !Uses(ReplaceAllUsesWith(body, x, c)[k], x)
    ensures forall k, y :: 0 <= k < |body| && Uses(ReplaceAllUsesWith(body, x, c)[k], y) ==> Uses(body[k], y)
    ensures forall k :: 0 <= k < |body| ==> Skeleton(ReplaceAllUsesWith(body, x, c)[k]) == Skeleton(body[k])
    ensures forall k :: 0 <= k < |body| && !Uses(body[k], x) ==> ReplaceAllUsesWith(body, x, c)[k] == body[k]
  {
    forall k | 0 <= k < |body| {
      SubstInstrSpec(body[k], x, c);
    }
  }
}
