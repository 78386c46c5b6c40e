/**
 * PTX instruction operands (`operand_info`): what kind of operand it is, the
 * literal or symbol it holds, its address space and offset, and a few flags.
 * The value is a C++ union; here it is the member last written.
 */
module OperandInfo {
  import opened Wrappers
  import opened MemorySpace

  /** The operand types the constructors and predicates name. */
  datatype OperandType =
    | UndefT | RegT | VectorT | BuiltinT | AddressT | MemoryT | LabelT
    | IntT | UnsignedT | FloatOpT | DoubleOpT

  /** A symbol-table entry, identified by its index. */
  type Symbol = nat

  /** The active member of the operand's value union.  Floating-point
      literals are kept without their value. */
  datatype OperandValue =
    | IntValue(i: int)
    | UnsignedValue(u: nat)
    | FloatValue
    | DoubleValue
    | Symbolic(sym: Option<Symbol>)
    | VectorSymbolic(syms: seq<Option<Symbol>>)

  /** The number of non-null symbols before the first null one (at most 8). */
  function LeadingSymbols(syms: seq<Option<Symbol>>): (n: nat)
    ensures n <= |syms|
    ensures forall i :: 0 <= i < n ==> syms[i].Some?
    ensures n < |syms| ==> syms[n].None?
  {
    if syms == [] || syms[0].None? then 0 else 1 + LeadingSymbols(syms[1..])
  }

  class Operand {
    var uid: nat
    var valid: bool
    var vector: bool
    var opType: OperandType
    var immediateAddress: bool
    var addrSpace: SpaceKind
    var operandLohi: int
    var doubleOperandType: int
    var operandNeg: bool
    var value: OperandValue
    var addrOffset: int
    var negPred: bool
    var isReturnVar: bool
    var isNonArchReg: bool

    /** A vector operand holds its eight symbol slots. */
    ghost predicate Valid()
      reads this
    {
      vector ==> value.VectorSymbolic? && |value.syms| == 8
    }

    /** The flags every constructor clears after `init`. */
    ghost predicate Cleared()
      reads this
    {
      !isNonArchReg && addrSpace == UndefinedSpace && operandLohi == 0 && doubleOperandType == 0
      && !operandNeg && !negPred && !isReturnVar
    }

    /** `operand_info(ctx)`: an invalid, untyped operand. */
    constructor Empty(uid: nat)
      ensures Valid() && Cleared()
      ensures this.uid == uid && !valid && !vector && opType == UndefT && !immediateAddress
      ensures addrOffset == 0 && value == Symbolic(None)
    {
      this.uid := uid;
      valid := false;
      vector := false;
      opType := UndefT;
      immediateAddress := false;
      addrSpace := UndefinedSpace;
      operandLohi := 0;
      doubleOperandType := 0;
      operandNeg := false;
      value := Symbolic(None);
      addrOffset := 0;
      negPred := false;
      isReturnVar := false;
      isNonArchReg := false;
    }

    /** `operand_info(addr1, addr2, ctx)`: a memory operand built from two
        symbols; it is not a vector. */
    constructor MemoryPair(addr1: Symbol, addr2: Symbol, uid: nat)
      ensures Valid() && Cleared()
      ensures this.uid == uid && valid && !vector && opType == MemoryT && !immediateAddress
      ensures value == VectorSymbolic([Some(addr1), Some(addr2), None, None, None, None, None, None])
      ensures addrOffset == 0
    {
      this.uid := uid;
      valid := true;
      vector := false;
      opType := MemoryT;
      immediateAddress := false;
      addrSpace := UndefinedSpace;
      operandLohi := 0;
      doubleOperandType := 0;
      operandNeg := false;
      value := VectorSymbolic([Some(addr1), Some(addr2), None, None, None, None, None, None]);
      addrOffset := 0;
      negPred := false;
      isReturnVar := false;
      isNonArchReg := false;
    }

    /** `operand_info(builtin_id, dim_mod, ctx)`. */
    constructor Builtin(builtinId: int, dimMod: int, uid: nat)
      ensures Valid() && Cleared()
      ensures this.uid == uid && valid && !vector && opType == BuiltinT && !immediateAddress
      ensures value == IntValue(builtinId) && addrOffset == dimMod
    {
      this.uid := uid;
      valid := true;
      vector := false;
      opType := BuiltinT;
      immediateAddress := false;
      addrSpace := UndefinedSpace;
      operandLohi := 0;
      doubleOperandType := 0;
      operandNeg := false;
      value := IntValue(builtinId);
      addrOffset := dimMod;
      negPred := false;
      isReturnVar := false;
      isNonArchReg := false;
    }

    /** `operand_info(addr, offset, ctx)`: a symbol plus an offset. */
    constructor AddressOf(addr: Symbol, offset: int, uid: nat)
      ensures Valid() && Cleared()
      ensures this.uid == uid && valid && !vector && opType == AddressT && !immediateAddress
      ensures value == Symbolic(Some(addr)) && addrOffset == offset
    {
      this.uid := uid;
      valid := true;
      vector := false;
      opType := AddressT;
      immediateAddress := false;
      addrSpace := UndefinedSpace;
      operandLohi := 0;
      doubleOperandType := 0;
      operandNeg := false;
      value := Symbolic(Some(addr));
      addrOffset := offset;
      negPred := false;
      isReturnVar := false;
      isNonArchReg := false;
    }

    /** `operand_info(unsigned x, ctx)`: an unsigned literal that doubles as
        an immediate address. */
    constructor UnsignedLiteral(x: nat, uid: nat)
      requires x < 0x1_0000_0000
      ensures Valid() && Cleared()
      ensures this.uid == uid && valid && !vector && opType == UnsignedT
      ensures immediateAddress && value == UnsignedValue(x) && addrOffset == Int32(x)
    {
      this.uid := uid;
      valid := true;
      vector := false;
      opType := UnsignedT;
      immediateAddress := true;
      addrSpace := UndefinedSpace;
      operandLohi := 0;
      doubleOperandType := 0;
      operandNeg := false;
      value := UnsignedValue(x);
      addrOffset := Int32(x);
      negPred := false;
      isReturnVar := false;
      isNonArchReg := false;
    }

    /** `operand_info(int x, ctx)`. */
    constructor IntLiteral(x: int, uid: nat)
      ensures Valid() && Cleared()
      ensures this.uid == uid && valid && !vector && opType == IntT && !immediateAddress
      ensures value == IntValue(x) && addrOffset == 0
    {
      this.uid := uid;
      valid := true;
      vector := false;
      opType := IntT;
      immediateAddress := false;
      addrSpace := UndefinedSpace;
      operandLohi := 0;
      doubleOperandType := 0;
      operandNeg := false;
      value := IntValue(x);
      addrOffset := 0;
      negPred := false;
      isReturnVar := false;
      isNonArchReg := false;
    }

    /** `operand_info(float x, ctx)` and `operand_info(double x, ctx)`. */
    constructor FloatLiteral(isDouble: bool, uid: nat)
      ensures Valid() && Cleared()
      ensures this.uid == uid && valid && !vector && !immediateAddress && addrOffset == 0
      ensures opType == (if isDouble then DoubleOpT else FloatOpT)
      ensures value == (if isDouble then DoubleValue else FloatValue)
    {
      this.uid := uid;
      valid := true;
      vector := false;
      opType := if isDouble then DoubleOpT else FloatOpT;
      immediateAddress := false;
      addrSpace := UndefinedSpace;
      operandLohi := 0;
      doubleOperandType := 0;
      operandNeg := false;
      value := if isDouble then DoubleValue else FloatValue;
      addrOffset := 0;
      negPred := false;
      isReturnVar := false;
      isNonArchReg := false;
    }

    /** The four- and eight-symbol vector constructors: `syms` holds the
        given symbols (which may be null) followed by nulls up to eight. */
    constructor Vector(syms: seq<Option<Symbol>>, uid: nat)
      requires |syms| == 4 || |syms| == 8
      ensures Valid() && Cleared()
      ensures this.uid == uid && valid && vector && opType == VectorT && !immediateAddress
      ensures value == VectorSymbolic(syms + seq(8 - |syms|, _ => None)) && addrOffset == 0
    {
      this.uid := uid;
      valid := true;
      vector := true;
      opType := VectorT;
      immediateAddress := false;
      addrSpace := UndefinedSpace;
      operandLohi := 0;
      doubleOperandType := 0;
      operandNeg := false;
      value := VectorSymbolic(syms + seq(8 - |syms|, _ => None));
      addrOffset := 0;
      negPred := false;
      isReturnVar := false;
      isNonArchReg := false;
    }

    /** `get_vect_nelem`: the number of symbols before the first null slot. */
    function VectNelem(): (n: nat)
      reads this
      requires Valid() && vector
      ensures n <= 8
      ensures forall i :: 0 <= i < n ==> value.syms[i].Some?
      ensures n < 8 ==> value.syms[n].None?
    {
      LeadingSymbols(value.syms)
    }

    /** `vec_symbol(idx)`: the symbol in slot `idx`, which must be non-null. */
    function VecSymbol(idx: nat): (s: Symbol)
      reads this
      requires value.VectorSymbolic? && |value.syms| == 8
      requires idx < 8 && value.syms[idx].Some?
      ensures value.syms[idx] == Some(s)
    {
      value.syms[idx].value
    }

    /** `is_literal`. */
    predicate IsLiteral()
      reads this
    {
      opType == IntT || opType == FloatOpT || opType == DoubleOpT || opType == UnsignedT
    }

    /** `is_memory_operand2`: the operand was given an address space. */
    predicate IsMemoryOperand2()
      reads this
    {
      addrSpace != UndefinedSpace
    }

    /** `set_neg_pred`, allowed on valid operands only. */
    method SetNegPred()
      requires valid
      modifies this
      ensures negPred
      ensures uid == old(uid) && valid == old(valid) && vector == old(vector) && opType == old(opType)
      ensures value == old(value) && addrSpace == old(addrSpace) && addrOffset == old(addrOffset)
      ensures immediateAddress == old(immediateAddress) && isReturnVar == old(isReturnVar)
      ensures operandNeg == old(operandNeg) && isNonArchReg == old(isNonArchReg)
      ensures operandLohi == old(operandLohi) && doubleOperandType == old(doubleOperandType)
    {
      negPred := true;
    }

    /** `set_addr_space`. */
    method SetAddrSpace(k: SpaceKind)
      modifies this
      ensures addrSpace == k && (IsMemoryOperand2() <==> k != UndefinedSpace)
      ensures uid == old(uid) && valid == old(valid) && vector == old(vector) && opType == old(opType)
      ensures value == old(value) && addrOffset == old(addrOffset) && negPred == old(negPred)
      ensures immediateAddress == old(immediateAddress) && isReturnVar == old(isReturnVar)
      ensures operandNeg == old(operandNeg) && isNonArchReg == old(isNonArchReg)
      ensures operandLohi == old(operandLohi) && doubleOperandType == old(doubleOperandType)
    {
      addrSpace := k;
    }
  }

  /** The `int` reading of a 32-bit unsigned value (two's complement). */
  function Int32(x: nat): (i: int)
    requires x < 0x1_0000_0000
    ensures -0x8000_0000 <= i < 0x8000_0000
    ensures i % 0x1_0000_0000 == x
  {
    if x < 0x8000_0000 then x else x - 0x1_0000_0000
  }

  /** The vector count of a vector built from four symbols is the number of
      leading non-null ones among them, so it is at most 4. */
  lemma {:induction false} LeadingSymbolsPadded(syms: seq<Option<Symbol>>, pad: nat)
    ensures LeadingSymbols(syms + seq(pad, _ => None)) == LeadingSymbols(syms)
  {
    if syms == [] {
      if pad > 0 {
        assert (syms + seq(pad, _ => None))[0] == None;
      }
    } else {
      assert (syms + seq(pad, _ => None))[1..] == syms[1..] + seq(pad, _ => None);
      if syms[0].Some? {
        LeadingSymbolsPadded(syms[1..], pad);
      }
    }
  }

  /** A vector operand built from four symbols counts the leading non-null
      ones among them, so it has at most four elements. */
  method FourVectorCount(syms: seq<Option<Symbol>>, uid: nat) returns (n: nat)
    requires |syms| == 4
    ensures n == LeadingSymbols(syms) && n <= 4
  {
    var op := new Operand.Vector(syms, uid);
    LeadingSymbolsPadded(syms, 4);
    n := op.VectNelem();
  }

  /** Literal operands are exactly the ones built by the literal constructors;
      a memory pair is not a literal and has no address space yet. */
  method LiteralKinds(x: int, addr1: Symbol, addr2: Symbol, uid: nat) returns (lit: bool, mem: bool)
    ensures lit && !mem
  {
    var a := new Operand.IntLiteral(x, uid);
    var b := new Operand.MemoryPair(addr1, addr2, uid);
    lit := a.IsLiteral() && !b.IsLiteral();
    mem := b.IsMemoryOperand2();
  }
}
