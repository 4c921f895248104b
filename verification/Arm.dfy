/** The ARM instructions that the 32-bit conversion uses, as an interpreter over a small register file. */
module Arm {
  import opened Words

  type Word = n: nat | n < Pow2(32)

  /** `Result` is operand %0, `T1` to `T3` are %1 to %3, `Lo` and `Hi` are the halves %Q4 and %R4 of the double. */
  datatype Reg = Result | T1 | T2 | T3 | Lo | Hi

  datatype Shift = LSL | LSR | ASR

  datatype Operand =
    | Imm(value: Word)
    | Plain(reg: Reg)
    | ByImm(reg: Reg, shift: Shift, amount: nat)
    | ByReg(reg: Reg, shift: Shift, count: Reg)

  datatype AluOp = AND_NOT | ORR | EOR | ADD | SUB | RSB

  datatype Instr =
    | Mov(rd: Reg, operand: Operand)
    | Alu(op: AluOp, setsFlags: bool, rd: Reg, rn: Reg, operand: Operand)
    | Branch(target: nat)
    | BranchIfMinus(target: nat)

  datatype State = State(pc: nat, result: Word, t1: Word, t2: Word, t3: Word, lo: Word, hi: Word, minus: bool) {
    function Get(r: Reg): Word {
      match r
      case Result => result
      case T1 => t1
      case T2 => t2
      case T3 => t3
      case Lo => lo
      case Hi => hi
    }

    function Set(r: Reg, w: Word): State {
      match r
      case Result => this.(result := w)
      case T1 => this.(t1 := w)
      case T2 => this.(t2 := w)
      case T3 => this.(t3 := w)
      case Lo => this.(lo := w)
      case Hi => this.(hi := w)
    }
  }

  function Truncate(n: nat): Word {
    hide Pow2, Low;
    ShrLowSplit(n, 32);
    Low(n, 32)
  }

  predicate SignBit(w: Word) {
    Shr(w, 31) == 1
  }

  function Invert(w: Word): Word {
    Not(w, 32)
  }

  /** The barrel shifter: logical shifts by 32 or more give zero, arithmetic ones give copies of the sign. */
  function ShiftWord(shift: Shift, w: Word, amount: nat): Word {
    hide Pow2, Low, Shr;
    ShrNotAbove(w, amount);
    ShrNotAbove(Invert(w), amount);
    match shift
    case LSL => if amount >= 32 then 0 else Truncate(Scale(w, amount))
    case LSR => if amount >= 32 then 0 else Shr(w, amount)
    case ASR => if SignBit(w) then Invert(Shr(Invert(w), amount)) else Shr(w, amount)
  }

  lemma {:induction false} ShrNotAbove(x: nat, k: nat)
    ensures Shr(x, k) <= x
  {
    if k == 0 {
    } else {
      ShrNotAbove(x / 2, k - 1);
    }
  }

  function Eval(s: State, operand: Operand): Word {
    match operand
    case Imm(value) => value
    case Plain(reg) => s.Get(reg)
    case ByImm(reg, shift, amount) => ShiftWord(shift, s.Get(reg), amount)
    case ByReg(reg, shift, count) => ShiftWord(shift, s.Get(reg), Low(s.Get(count), 8))
  }

  /** Addition and subtraction wrap around. */
  function Wrap(n: int): Word {
    hide Pow2;
    n % Pow2(32)
  }

  function Compute(op: AluOp, x: Word, y: Word): Word {
    hide Pow2, Bitwise;
    BitwiseBelow(Bic, x, y, 32);
    BitwiseBelow(Or, x, y, 32);
    BitwiseBelow(Xor, x, y, 32);
    match op
    case AND_NOT => Bitwise(Bic, x, y)
    case ORR => Bitwise(Or, x, y)
    case EOR => Bitwise(Xor, x, y)
    case ADD => Wrap(x + y)
    case SUB => Wrap(x - y)
    case RSB => Wrap(y - x)
  }

  function Execute(instr: Instr, s: State): State {
    match instr
    case Mov(rd, operand) =>
      s.Set(rd, Eval(s, operand)).(pc := s.pc + 1)
    case Alu(op, setsFlags, rd, rn, operand) =>
      var w := Compute(op, s.Get(rn), Eval(s, operand));
      var s' := s.Set(rd, w).(pc := s.pc + 1);
      if setsFlags then s'.(minus := SignBit(w)) else s'
    case Branch(target) => s.(pc := target)
    case BranchIfMinus(target) => s.(pc := if s.minus then target else s.pc + 1)
  }

  /** The instruction at an address of the conversion routine, labels resolved. */
  function Fetch(pc: nat): Instr {
    hide Pow2;
    Immediates();
    match pc
    // T1 becomes the exponent field: the top twelve bits without the sign.
    case 0 => Mov(T1, ByImm(Hi, LSR, 20))
    case 1 => Alu(AND_NOT, false, T1, T1, Imm(Pow2(11)))
    // The leading one takes the place of the last exponent bit.
    case 2 => Alu(ORR, false, Hi, Hi, Imm(Pow2(20)))
    // Subtract 1023 in two steps, and leave for the zero exit below that.
    case 3 => Alu(SUB, false, T1, T1, Imm(0xff))
    case 4 => Alu(SUB, true, T1, T1, Imm(0x300))
    case 5 => BranchIfMinus(27)
    // The lower register, to the left from exponent 52 on and to the right below.
    case 6 => Alu(SUB, true, T3, T1, Imm(52))
    case 7 => BranchIfMinus(12)
    case 8 => Alu(AND_NOT, false, T2, T3, Imm(0xff))
    case 9 => Alu(ORR, false, T3, T3, ByImm(T2, LSR, 3))
    case 10 => Mov(Lo, ByReg(Lo, LSL, T3))
    case 11 => Branch(14)
    case 12 => Alu(RSB, false, T3, T1, Imm(52))
    case 13 => Mov(Lo, ByReg(Lo, LSR, T3))
    // The upper register, likewise around exponent 31.
    case 14 => Alu(SUB, true, T3, T1, Imm(31))
    case 15 => Mov(T1, ByImm(Hi, LSL, 11))
    case 16 => BranchIfMinus(21)
    case 17 => Alu(AND_NOT, false, T2, T3, Imm(0xff))
    case 18 => Alu(ORR, false, T3, T3, ByImm(T2, LSR, 3))
    case 19 => Mov(T2, ByReg(T1, LSL, T3))
    case 20 => Branch(23)
    case 21 => Alu(RSB, false, T3, T3, Imm(0))
    case 22 => Mov(T2, ByReg(T1, LSR, T3))
    // Join both, apply the sign, and deliver.
    case 23 => Alu(ORR, false, Lo, Lo, Plain(T2))
    case 24 => Alu(EOR, false, Lo, Lo, ByImm(Hi, ASR, 31))
    case 25 => Alu(ADD, false, Result, Lo, ByImm(Hi, LSR, 31))
    case 26 => Branch(END)
    case _ => Mov(Result, Imm(0))
  }

  const END: nat := 28

  lemma Immediates()
    ensures 0x800 == Pow2(11) < Pow2(32)
    ensures Pow2(20) < Pow2(32)
  {
    assert 0x800 == Pow2(11);
    hide Pow2;
    StrictPow2(11, 32);
    StrictPow2(20, 32);
  }

  function Step(s: State): (s': State)
    requires s.pc < END
    ensures s.pc < s'.pc <= END
  {
    hide Pow2, Eval, Compute;
    Execute(Fetch(s.pc), s)
  }

  /** All branches go forward, so every run reaches the end. */
  function Run(s: State): (s': State)
    requires s.pc <= END
    ensures s'.pc == END
    decreases END - s.pc
  {
    if s.pc == END then s else Run(Step(s))
  }
}
