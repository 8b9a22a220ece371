/** The backend's storage map (MipsGenModule `mem`, `spOff`): every value
    name is given a location the first time it is seen and keeps it. Also
    the `load`/`store` helpers that move a named value between its location
    and a register. */
module Storage {
  import opened Int32
  import opened Mips
  import opened Base

  /** A location: a global (addressed by its label; `isInt` tells a scalar
      from an array) or a word at a signed offset from `$sp`. */
  datatype Slot = GlobalSlot(isInt: bool) | StackSlot(off: int)

  datatype Storage = Storage(slots: map<string, Slot>, spOff: int)

  const Empty := Storage(map[], 0)

  /** The storage map never aliases: stack words are aligned, lie between
      the cursor and the frame base, and distinct names get distinct words. */
  ghost predicate Valid(st: Storage)
  {
    && st.spOff <= 0 && st.spOff % 4 == 0
    && (forall n :: n in st.slots && st.slots[n].StackSlot? ==>
          st.spOff <= st.slots[n].off < 0 && st.slots[n].off % 4 == 0)
    && (forall n, m :: n in st.slots && m in st.slots && n != m
          && st.slots[n].StackSlot? && st.slots[m].StackSlot?
          ==> st.slots[n].off != st.slots[m].off)
  }

  /** `getGp`: map a global to its label unless already mapped. */
  function GetGp(st: Storage, name: string, isInt: bool): (r: Storage)
    ensures name in st.slots ==> r == st
    ensures name !in st.slots ==> r.slots == st.slots[name := GlobalSlot(isInt)]
    ensures r.spOff == st.spOff
    ensures Valid(st) ==> Valid(r)
  {
    if name in st.slots then st
    else Storage(st.slots[name := GlobalSlot(isInt)], st.spOff)
  }

  /** `getSp`: give a fresh name the next word below the cursor. */
  function GetSp(st: Storage, name: string): (r: Storage)
    ensures name in st.slots ==> r == st
    ensures name !in st.slots ==> r.spOff == st.spOff - 4
    ensures name !in st.slots ==> r.slots == st.slots[name := StackSlot(r.spOff)]
    ensures Valid(st) ==> Valid(r)
  {
    if name in st.slots then st
    else
      var off := st.spOff - 4;
      Storage(st.slots[name := StackSlot(off)], off)
  }

  /** `getSpArray`: a fresh array name gets a pointer word, `size` bytes are
      reserved below it, and code is emitted that stores the address of the
      reserved block into the pointer word. */
  function GetSpArray(st: Storage, name: string, size: nat): (r: (Storage, seq<Instr>))
    requires size % 4 == 0
    ensures name in st.slots ==> r == (st, [])
    ensures name !in st.slots ==>
      && r.0.slots == st.slots[name := StackSlot(st.spOff - 4)]
      && r.0.spOff == st.spOff - 4 - size
      && r.1 == [AdduImm(T0, SP, r.0.spOff), Sw(T0, st.spOff - 4, SP)]
    ensures Valid(st) ==> Valid(r.0)
  {
    if name in st.slots then (st, [])
    else
      var st1 := GetSp(st, name);
      var st2 := st1.(spOff := st1.spOff - size);
      var code := [AdduImm(T0, SP, st2.spOff)] + StoreCode(st2, T0, name);
      (st2, code)
  }

  /** The operand of an IR instruction as the backend sees it: a constant
      (whose name is its decimal text) or a named value. */
  datatype Operand = Const(v: int) | Named(name: string)

  predicate Mapped(st: Storage, o: Operand)
  {
    o.Named? ==> o.name in st.slots
  }

  /** Every operand of a list has storage. */
  predicate AllMapped(st: Storage, os: seq<Operand>)
  {
    forall k :: 0 <= k < |os| ==> Mapped(st, os[k])
  }

  /** `load(reg, name)`. */
  function LoadCode(st: Storage, r: Reg, o: Operand): seq<Instr>
    requires Mapped(st, o)
  {
    match o
    case Const(v) => [Li(r, v)]
    case Named(n) =>
      match st.slots[n]
      case GlobalSlot(isInt) => [La(r, n)] + (if isInt then [Lw(r, 0, r)] else [])
      case StackSlot(off) => [Lw(r, off, SP)]
  }

  /** `store(reg, name)`; a global goes through `$t1`, and a global array
      gets only its address loaded. */
  function StoreCode(st: Storage, r: Reg, n: string): seq<Instr>
    requires n in st.slots
  {
    match st.slots[n]
    case GlobalSlot(isInt) => [La(T1, n)] + (if isInt then [Sw(r, 0, T1)] else [])
    case StackSlot(off) => [Sw(r, off, SP)]
  }

  /** Address of a stack slot in machine state `s`. */
  function SlotAddr(s: State, off: int): int { Get(s, SP) + off }

  /** The word an operand denotes in state `s`. */
  function ValueOf(s: State, st: Storage, o: Operand): (v: int)
    requires Mapped(st, o)
    ensures IsWord(v)
  {
    match o
    case Const(v) => Wrap(v)
    case Named(n) =>
      match st.slots[n]
      case GlobalSlot(isInt) => if isInt then Load(s, Label(s, n)) else Label(s, n)
      case StackSlot(off) => Load(s, SlotAddr(s, off))
  }

  /** `load` leaves the operand's value in the register and touches nothing
      else. */
  lemma LoadEffect(s: State, st: Storage, r: Reg, o: Operand)
    requires Mapped(st, o)
    ensures Run(s, LoadCode(st, r, o)) == Set(s, r, ValueOf(s, st, o))
  {
    match o
    case Const(v) =>
    case Named(n) =>
      match st.slots[n]
      case GlobalSlot(isInt) =>
        if isInt {
          assert LoadCode(st, r, o) == [La(r, n), Lw(r, 0, r)];
          LoadGlobalInt(s, r, n);
        } else {
          assert Wrap(Label(s, n)) == Label(s, n);
        }
      case StackSlot(off) =>
  }

  lemma LoadGlobalInt(s: State, r: Reg, n: string)
    ensures Run(s, [La(r, n), Lw(r, 0, r)]) == Set(s, r, Load(s, Label(s, n)))
  {
    var s1 := Set(s, r, Label(s, n));
    assert [La(r, n), Lw(r, 0, r)] == [La(r, n)] + [Lw(r, 0, r)];
    RunCons(s, La(r, n), [Lw(r, 0, r)]);
    RunOne(s1, Lw(r, 0, r));
    WrapId(Label(s, n));
    SetTwice(s, r, Label(s, n), Load(s, Label(s, n)));
  }

  /** Loading two operands into `$t0` then `$t1` leaves both values: the
      second load does not disturb the first. */
  lemma LoadPair(s: State, st: Storage, a0: Operand, a1: Operand)
    requires Mapped(st, a0) && Mapped(st, a1)
    ensures Run(s, LoadCode(st, T0, a0) + LoadCode(st, T1, a1))
            == Set(Set(s, T0, ValueOf(s, st, a0)), T1, ValueOf(s, st, a1))
  {
    var s1 := Set(s, T0, ValueOf(s, st, a0));
    LoadEffect(s, st, T0, a0);
    RunAppend(s, LoadCode(st, T0, a0), LoadCode(st, T1, a1));
    LoadEffect(s1, st, T1, a1);
    ValueOfSet(s, st, T0, ValueOf(s, st, a0), a1);
  }

  /** Writing a register other than `$sp` leaves every operand's value alone. */
  lemma ValueOfSet(s: State, st: Storage, r: Reg, v: int, o: Operand)
    requires Mapped(st, o) && r != SP
    ensures ValueOf(Set(s, r, v), st, o) == ValueOf(s, st, o)
  {
  }

  lemma SetTwice(s: State, r: Reg, v: int, w: int)
    ensures Set(Set(s, r, v), r, w) == Set(s, r, w)
  {
  }

  /** `store` to a stack slot writes the register to the slot's word and
      changes nothing else. */
  lemma StoreStackEffect(s: State, st: Storage, r: Reg, n: string)
    requires n in st.slots && st.slots[n].StackSlot?
    ensures Run(s, StoreCode(st, r, n)) == Store(s, SlotAddr(s, st.slots[n].off), Get(s, r))
  {
  }

  /** `store` to a global scalar writes through `$t1`, which it clobbers. */
  lemma StoreGlobalEffect(s: State, st: Storage, r: Reg, n: string)
    requires n in st.slots && st.slots[n] == GlobalSlot(true) && r != T1
    ensures Run(s, StoreCode(st, r, n)) == Store(Set(s, T1, Label(s, n)), Label(s, n), Get(s, r))
  {
    var s1 := Set(s, T1, Label(s, n));
    assert StoreCode(st, r, n) == [La(T1, n)] + [Sw(r, 0, T1)];
    RunCons(s, La(T1, n), [Sw(r, 0, T1)]);
    RunOne(s1, Sw(r, 0, T1));
    assert Get(s1, r) == Get(s, r);
    assert Get(s1, T1) == Label(s, n);
  }

  /** Running the code of a fresh `getSpArray` leaves, in the pointer word,
      the address of the reserved block, which sits directly below it. */
  lemma SpArrayStoresAddress(s: State, st: Storage, name: string, size: nat)
    requires size % 4 == 0 && name !in st.slots
    requires IsWord(Get(s, SP) + st.spOff - 4 - size)
    ensures var r := GetSpArray(st, name, size);
      && Load(Run(s, r.1), SlotAddr(s, st.spOff - 4)) == SlotAddr(s, r.0.spOff)
      && r.0.spOff + size == st.spOff - 4
  {
    var r := GetSpArray(st, name, size);
    var i0, i1 := AdduImm(T0, SP, r.0.spOff), Sw(T0, st.spOff - 4, SP);
    assert r.1 == [i0] + [i1];
    RunCons(s, i0, [i1]);
    RunOne(Exec(s, i0), i1);
    WrapId(Get(s, SP) + r.0.spOff);
  }

  /** The type an `alloca` reserves room for. */
  datatype AllocaType = IntTy | ArrayTy(capacity: nat) | PointerTy(target: AllocaType) | OtherTy

  /** `parseAlloca`: scalars (or pointers to scalars) take one word, arrays
      (or pointers to arrays) take a pointer word plus their elements. */
  function ParseAlloca(st: Storage, name: string, t: AllocaType): (r: (Storage, seq<Instr>))
    ensures Valid(st) ==> Valid(r.0)
    ensures r.0.spOff <= st.spOff
    ensures name !in st.slots && (t.IntTy? || t == PointerTy(IntTy)) ==>
      r.0.spOff == st.spOff - 4 && r.1 == []
    ensures name !in st.slots && (t.ArrayTy? || (t.PointerTy? && t.target.ArrayTy?)) ==>
      r.0.spOff == st.spOff - 4 - 4 * (if t.ArrayTy? then t.capacity else t.target.capacity)
    ensures name in st.slots ==> r == (st, [])
  {
    match t
    case IntTy => (GetSp(st, name), [])
    case ArrayTy(cap) => GetSpArray(st, name, 4 * cap)
    case PointerTy(target) =>
      (match target
       case IntTy => (GetSp(st, name), [])
       case ArrayTy(cap) => GetSpArray(st, name, 4 * cap)
       case _ => (st, []))
    case OtherTy => (st, [])
  }

  /** The shape of every arithmetic lowering: load the operand into `$t0`,
      run a kernel that leaves `$sp` alone, store `$t0` to a stack slot.
      The slot then holds what the kernel left in `$t0`. */
  lemma LoadComputeStore(s: State, st: Storage, x: Operand, k: seq<Instr>, dst: string)
    requires Mapped(st, x) && dst in st.slots && st.slots[dst].StackSlot?
    requires forall j :: 0 <= j < |k| ==> k[j].Dest() != Some(SP)
    ensures var t := Run(s, LoadCode(st, T0, x) + k + StoreCode(st, T0, dst));
      Load(t, SlotAddr(s, st.slots[dst].off)) == Get(Run(Set(s, T0, ValueOf(s, st, x)), k), T0)
  {
    var s1 := Set(s, T0, ValueOf(s, st, x));
    LoadEffect(s, st, T0, x);
    RunAppend(s, LoadCode(st, T0, x), k);
    RunAppend(s, LoadCode(st, T0, x) + k, StoreCode(st, T0, dst));
    var s2 := Run(s1, k);
    RunKeeps(s1, k, SP);
    StoreStackEffect(s2, st, T0, dst);
  }
}
