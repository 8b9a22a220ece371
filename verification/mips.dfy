/** An abstract MIPS machine: the registers the code generator uses, the
    instructions it emits (as values, not text), and an interpreter over
    32-bit words. Every write to a register or to memory wraps to a word. */
module Mips {
  import opened Int32
  import opened Base

  datatype Reg = T0 | T1 | T2 | A0 | V0 | SP | GP | RA

  /** The four runtime macros of the intrinsic library functions; each is
      `li $v0, <service>` followed by `syscall`. */
  datatype Macro = GetInt | PutInt | PutCh | PutStr

  /** The syscall service number a macro loads into `$v0`. */
  function Service(m: Macro): int
  {
    match m
    case GetInt => 5
    case PutInt => 1
    case PutCh => 11
    case PutStr => 4
  }

  datatype Instr =
    | Li(rd: Reg, imm: int)
    | La(rd: Reg, lbl: string)
    | Lw(rd: Reg, off: int, base: Reg)
    | Sw(rt: Reg, off: int, base: Reg)
    | Addu(rd: Reg, rs: Reg, rt: Reg)
    | AdduImm(rd: Reg, rs: Reg, imm: int)
    | Negu(rd: Reg, rs: Reg)
    | Sll(rd: Reg, rt: Reg, sa: nat)
    | Srl(rd: Reg, rt: Reg, sa: nat)
    | Sra(rd: Reg, rt: Reg, sa: nat)
    | Mul(rd: Reg, rs: Reg, rt: Reg)
    | MulImm(rd: Reg, rs: Reg, imm: int)
    | Mult(rs: Reg, rt: Reg)
    | Mfhi(rd: Reg)
    | Call(m: Macro)
    | Jal(lbl: string)
    | Jr(rs: Reg)
    | J(lbl: string)
    | Beqz(rs: Reg, lbl: string)
  {
    predicate IsControl() { Jal? || Jr? || J? || Beqz? }

    /** The register this instruction writes, if any. */
    function Dest(): Option<Reg>
    {
      match this
      case Li(rd, _) => Some(rd)
      case La(rd, _) => Some(rd)
      case Lw(rd, _, _) => Some(rd)
      case Addu(rd, _, _) => Some(rd)
      case AdduImm(rd, _, _) => Some(rd)
      case Negu(rd, _) => Some(rd)
      case Sll(rd, _, _) => Some(rd)
      case Srl(rd, _, _) => Some(rd)
      case Sra(rd, _, _) => Some(rd)
      case Mul(rd, _, _) => Some(rd)
      case MulImm(rd, _, _) => Some(rd)
      case Mfhi(rd) => Some(rd)
      case Call(_) => Some(V0)
      case _ => None
    }
  }

  /** What the intrinsic macros write to the console. */
  datatype Event = OutInt(v: int) | OutChar(c: int) | OutStr(addr: int)

  /** The register file. */
  datatype Regs = Regs(t0: Word, t1: Word, t2: Word, a0: Word, v0: Word, sp: Word, gp: Word, ra: Word)

  /** Registers, `hi`, memory words and label addresses all hold words. */
  datatype State = State(
    regs: Regs,
    hi: Word,
    mem: map<int, Word>,
    labels: map<string, Word>,
    input: seq<int>,
    out: seq<Event>)

  function Get(s: State, r: Reg): (v: int)
    ensures IsWord(v)
  {
    match r
    case T0 => s.regs.t0
    case T1 => s.regs.t1
    case T2 => s.regs.t2
    case A0 => s.regs.a0
    case V0 => s.regs.v0
    case SP => s.regs.sp
    case GP => s.regs.gp
    case RA => s.regs.ra
  }

  function Load(s: State, addr: int): (v: int)
    ensures IsWord(v)
  {
    if addr in s.mem then s.mem[addr] else 0
  }

  function Label(s: State, name: string): (v: int)
    ensures IsWord(v)
  {
    if name in s.labels then s.labels[name] else 0
  }

  function Set(s: State, r: Reg, v: int): (t: State)
    ensures Get(t, r) == Wrap(v)
    ensures forall q :: q != r ==> Get(t, q) == Get(s, q)
    ensures t.mem == s.mem && t.labels == s.labels && t.hi == s.hi
    ensures t.out == s.out && t.input == s.input
  {
    var w := Wrap(v);
    var g := s.regs;
    s.(regs := match r
      case T0 => g.(t0 := w)
      case T1 => g.(t1 := w)
      case T2 => g.(t2 := w)
      case A0 => g.(a0 := w)
      case V0 => g.(v0 := w)
      case SP => g.(sp := w)
      case GP => g.(gp := w)
      case RA => g.(ra := w))
  }

  function Store(s: State, addr: int, v: int): (t: State)
    ensures Load(t, addr) == Wrap(v)
    ensures forall a :: a != addr ==> Load(t, a) == Load(s, a)
    ensures t.regs == s.regs && t.labels == s.labels && t.hi == s.hi
    ensures t.out == s.out && t.input == s.input
  {
    s.(mem := s.mem[addr := Wrap(v)])
  }

  /** Data effect of one instruction. Control transfers have no data effect
      here; where they go is given by `Target`. */
  function Exec(s: State, i: Instr): State
  {
    match i
    case Li(rd, imm) => Set(s, rd, imm)
    case La(rd, lbl) => Set(s, rd, Label(s, lbl))
    case Lw(rd, off, base) => Set(s, rd, Load(s, Get(s, base) + off))
    case Sw(rt, off, base) => Store(s, Get(s, base) + off, Get(s, rt))
    case Addu(rd, rs, rt) => Set(s, rd, Get(s, rs) + Get(s, rt))
    case AdduImm(rd, rs, imm) => Set(s, rd, Get(s, rs) + imm)
    case Negu(rd, rs) => Set(s, rd, -Get(s, rs))
    case Sll(rd, rt, sa) => Set(s, rd, Int32.Sll(Get(s, rt), sa))
    case Srl(rd, rt, sa) => Set(s, rd, Int32.Srl(Get(s, rt), sa))
    case Sra(rd, rt, sa) => Set(s, rd, Int32.Sra(Get(s, rt), sa))
    case Mul(rd, rs, rt) => Set(s, rd, Get(s, rs) * Get(s, rt))
    case MulImm(rd, rs, imm) => Set(s, rd, Get(s, rs) * imm)
    case Mult(rs, rt) => s.(hi := Wrap((Get(s, rs) * Get(s, rt)) / Modulus))
    case Mfhi(rd) => Set(s, rd, s.hi)
    case Call(m) =>
      (match m
       case GetInt =>
         var v := if |s.input| > 0 then s.input[0] else 0;
         Set(s, V0, v).(input := if |s.input| > 0 then s.input[1..] else [])
       case PutInt => Set(s, V0, Service(m)).(out := s.out + [OutInt(Get(s, A0))])
       case PutCh => Set(s, V0, Service(m)).(out := s.out + [OutChar(Get(s, A0))])
       case PutStr => Set(s, V0, Service(m)).(out := s.out + [OutStr(Get(s, A0))]))
    case _ => s
  }

  /** Data effect of a straight-line sequence. */
  function Run(s: State, p: seq<Instr>): State
    decreases |p|
  {
    if |p| == 0 then s else Run(Exec(s, p[0]), p[1..])
  }

  lemma {:induction false} RunAppend(s: State, p: seq<Instr>, q: seq<Instr>)
    ensures Run(s, p + q) == Run(Run(s, p), q)
    decreases |p|
  {
    if |p| > 0 {
      assert (p + q)[1..] == p[1..] + q;
      RunAppend(Exec(s, p[0]), p[1..], q);
    } else {
      assert p + q == q;
    }
  }

  lemma RunOne(s: State, i: Instr)
    ensures Run(s, [i]) == Exec(s, i)
  {
  }

  lemma RunCons(s: State, i: Instr, p: seq<Instr>)
    ensures Run(s, [i] + p) == Run(Exec(s, i), p)
  {
    assert ([i] + p)[1..] == p;
  }

  /** Running one more instruction after a sequence. */
  lemma RunSnoc(s: State, p: seq<Instr>, i: Instr)
    ensures Run(s, p + [i]) == Exec(Run(s, p), i)
  {
    RunAppend(s, p, [i]);
  }

  /** A three-instruction sequence is three steps. */
  lemma RunThree(s: State, a: Instr, b: Instr, c: Instr)
    ensures Run(s, [a, b, c]) == Exec(Exec(Exec(s, a), b), c)
  {
    RunCons(s, a, [b, c]);
    RunCons(Exec(s, a), b, [c]);
  }

  /** A four-instruction sequence is four steps. */
  lemma RunFour(s: State, a: Instr, b: Instr, c: Instr, d: Instr)
    ensures Run(s, [a, b, c, d]) == Exec(Exec(Exec(Exec(s, a), b), c), d)
  {
    RunCons(s, a, [b, c, d]);
    RunThree(Exec(s, a), b, c, d);
  }

  /** The label control reaches when `p` is run from `s`: the first `j`, or
      the first `beqz` whose register holds zero; `None` if control falls
      through the end. */
  function Target(s: State, p: seq<Instr>): Option<string>
    decreases |p|
  {
    if |p| == 0 then None
    else match p[0]
      case J(l) => Some(l)
      case Beqz(r, l) => if Get(s, r) == 0 then Some(l) else Target(s, p[1..])
      case _ => Target(Exec(s, p[0]), p[1..])
  }


  /** A register no instruction of `p` names as destination keeps its value. */
  lemma {:induction false} RunKeeps(s: State, p: seq<Instr>, r: Reg)
    requires forall k :: 0 <= k < |p| ==> p[k].Dest() != Some(r)
    ensures Get(Run(s, p), r) == Get(s, r)
    decreases |p|
  {
    if |p| > 0 {
      ExecKeeps(s, p[0], r);
      RunKeeps(Exec(s, p[0]), p[1..], r);
    }
  }

  lemma ExecKeeps(s: State, i: Instr, r: Reg)
    requires i.Dest() != Some(r)
    ensures Get(Exec(s, i), r) == Get(s, r)
  {
    if i.Li? || i.La? || i.Lw? || i.Addu? || i.AdduImm? || i.Negu? {
      SetKeeps(s, i, r);
    } else if i.Sll? || i.Srl? || i.Sra? || i.Mul? || i.MulImm? || i.Mfhi? {
      ShiftKeeps(s, i, r);
    } else if i.Call? {
      CallKeeps(s, i.m, r);
    }
  }

  lemma SetKeeps(s: State, i: Instr, r: Reg)
    requires i.Li? || i.La? || i.Lw? || i.Addu? || i.AdduImm? || i.Negu?
    requires i.Dest() != Some(r)
    ensures Get(Exec(s, i), r) == Get(s, r)
  {
  }

  lemma ShiftKeeps(s: State, i: Instr, r: Reg)
    requires i.Sll? || i.Srl? || i.Sra? || i.Mul? || i.MulImm? || i.Mfhi?
    requires i.Dest() != Some(r)
    ensures Get(Exec(s, i), r) == Get(s, r)
  {
  }

  lemma CallKeeps(s: State, m: Macro, r: Reg)
    requires Call(m).Dest() != Some(r)
    ensures Get(Exec(s, Call(m)), r) == Get(s, r)
  {
  }
}
