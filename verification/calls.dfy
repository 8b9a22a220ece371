/** `parseCall`, `parseRet` and the callee prologue of `genMips`: how
    arguments travel through the stack.

    At a call with n arguments the caller saves `$ra` at `spOff - 4`,
    writes argument k (1-based) at `spOff - 4 * (k + 1)`, lowers `$sp` by
    `-(spOff - 4 * (n + 1))`, jumps, raises `$sp` back and reloads `$ra`.
    Seen from the lowered `$sp`, argument k sits at `4 * (n - k)`, which is
    where the callee prologue reads its parameter k - 1. */
module Calls {
  import opened Int32
  import opened Mips
  import opened Base
  import opened Storage
  import Gep

  /** The named arguments live in stack words (every IR value the backend
      meets gets one); constants need no word. */
  ghost predicate ArgsOnStack(st: Storage, args: seq<Operand>)
  {
    forall k :: 0 <= k < |args| && args[k].Named? ==>
      args[k].name in st.slots && st.slots[args[k].name].StackSlot?
  }

  /** The word argument j (0-based) is written to, relative to the
      caller's `$sp`. */
  function ArgOffset(st: Storage, j: nat): int
  {
    st.spOff - 4 * (j + 2)
  }

  /** Loading each argument into `$t0` and storing it below the frame;
      `j` is the 0-based position of `args[0]` in the whole list. */
  function ArgStores(st: Storage, args: seq<Operand>, j: nat): seq<Instr>
    requires AllMapped(st, args)
    decreases |args|
  {
    if |args| == 0 then []
    else LoadCode(st, T0, args[0]) + [Sw(T0, ArgOffset(st, j), SP)] + ArgStores(st, args[1..], j + 1)
  }

  /** The `$sp` adjustment before the jump; its negation follows it. */
  function CallShift(st: Storage, n: nat): int
  {
    st.spOff - 4 * (n + 1)
  }

  /** The code before `jal`: save `$ra`, write the arguments, lower `$sp`. */
  function CallEntry(st: Storage, args: seq<Operand>): seq<Instr>
    requires AllMapped(st, args)
  {
    [Sw(RA, st.spOff - 4, SP)] + ArgStores(st, args, 0) + [AdduImm(SP, SP, CallShift(st, |args|))]
  }

  /** The code after `jal`: raise `$sp`, reload `$ra`, and for a non-void
      function store `$v0` into the call's word. */
  function CallExit(st: Storage, n: nat, result: Option<string>): seq<Instr>
    requires result.Some? ==> result.value in st.slots
  {
    [AdduImm(SP, SP, -st.spOff + 4 * (n + 1)), Lw(RA, st.spOff - 4, SP)]
    + (if result.Some? then StoreCode(st, V0, result.value) else [])
  }

  /** `parseCall` of a user function. */
  function CallCode(st: Storage, f: string, args: seq<Operand>, result: Option<string>): seq<Instr>
    requires AllMapped(st, args) && (result.Some? ==> result.value in st.slots)
  {
    CallEntry(st, args) + [Jal(f)] + CallExit(st, |args|, result)
  }

  /** The callee prologue: parameter i of n is read from `4 * (n - 1 - i)`
      and stored into a fresh word of its own. */
  function CalleePrologue(st: Storage, params: seq<string>): (r: (Storage, seq<Instr>))
    decreases |params|
  {
    if |params| == 0 then (st, [])
    else
      var st1 := GetSp(st, params[0]);
      var code := [Lw(T0, 4 * (|params| - 1), SP)] + StoreCode(st1, T0, params[0]);
      var rest := CalleePrologue(st1, params[1..]);
      (rest.0, code + rest.1)
  }

  /** `parseRet`: the returned value goes to `$v0`, then `jr $ra`. */
  function RetCode(st: Storage, v: Option<Operand>): seq<Instr>
    requires v.Some? ==> Mapped(st, v.value)
  {
    (if v.Some? then LoadCode(st, V0, v.value) else []) + [Jr(RA)]
  }

  // ---------------------------------------------------------------------
  // Writing the arguments

  /** Memory at and above `floor` is the same in both states. */
  ghost predicate SameAbove(s: State, t: State, floor: int)
  {
    forall a :: a >= floor ==> Load(t, a) == Load(s, a)
  }

  /** An argument keeps its value while only registers other than `$sp`
      and words below the frame change. */
  lemma ValueOfFrame(s: State, t: State, st: Storage, o: Operand)
    requires Valid(st) && Mapped(st, o)
    requires o.Named? ==> st.slots[o.name].StackSlot?
    requires Get(t, SP) == Get(s, SP) && SameAbove(s, t, Get(s, SP) + st.spOff)
    ensures ValueOf(t, st, o) == ValueOf(s, st, o)
  {
    if o.Named? {
      assert Load(t, SlotAddr(s, st.slots[o.name].off)) == Load(s, SlotAddr(s, st.slots[o.name].off));
    }
  }

  /** One argument: load it into `$t0` and store it at `off`. */
  lemma ArgStep(s: State, st: Storage, o: Operand, off: int)
    requires Valid(st) && Mapped(st, o) && off < st.spOff
    requires o.Named? ==> st.slots[o.name].StackSlot?
    ensures var t := Run(s, LoadCode(st, T0, o) + [Sw(T0, off, SP)]);
      && Get(t, SP) == Get(s, SP)
      && Load(t, Get(s, SP) + off) == ValueOf(s, st, o)
      && (forall a :: a != Get(s, SP) + off ==> Load(t, a) == Load(s, a))
  {
    var s1 := Set(s, T0, ValueOf(s, st, o));
    LoadEffect(s, st, T0, o);
    RunAppend(s, LoadCode(st, T0, o), [Sw(T0, off, SP)]);
    RunOne(s1, Sw(T0, off, SP));
    WrapId(ValueOf(s, st, o));
  }

  /** The word argument j was written to, as seen from the caller's `$sp`. */
  function ArgWord(t: State, sp: int, st: Storage, j: nat): int
  {
    Load(t, sp + ArgOffset(st, j))
  }

  /** After the argument stores, argument m sits at `ArgOffset(j + m)`,
      `$sp` is unchanged and nothing at or above `ArgOffset(j) + 4` moved. */
  lemma {:induction false} ArgStoresRun(s: State, st: Storage, args: seq<Operand>, j: nat)
    requires Valid(st) && AllMapped(st, args) && ArgsOnStack(st, args)
    ensures var t := Run(s, ArgStores(st, args, j));
      && Get(t, SP) == Get(s, SP)
      && SameAbove(s, t, Get(s, SP) + ArgOffset(st, j) + 4)
      && forall m :: 0 <= m < |args| ==> ArgWord(t, Get(s, SP), st, j + m) == ValueOf(s, st, args[m])
    decreases |args|
  {
    if |args| > 0 {
      var s1 := Run(s, LoadCode(st, T0, args[0]) + [Sw(T0, ArgOffset(st, j), SP)]);
      ArgHead(s, st, args, j);
      ArgStep(s, st, args[0], ArgOffset(st, j));
      ArgStoresRun(s1, st, args[1..], j + 1);
      ArgStoresCombine(s, s1, Run(s1, ArgStores(st, args[1..], j + 1)), st, args, j);
    }
  }

  /** The stores are the first argument's store followed by the rest's. */
  lemma ArgHead(s: State, st: Storage, args: seq<Operand>, j: nat)
    requires AllMapped(st, args) && ArgsOnStack(st, args) && |args| > 0
    ensures AllMapped(st, args[1..]) && ArgsOnStack(st, args[1..])
    ensures Run(s, ArgStores(st, args, j))
      == Run(Run(s, LoadCode(st, T0, args[0]) + [Sw(T0, ArgOffset(st, j), SP)]), ArgStores(st, args[1..], j + 1))
  {
    var head := LoadCode(st, T0, args[0]) + [Sw(T0, ArgOffset(st, j), SP)];
    RunAppend(s, head, ArgStores(st, args[1..], j + 1));
    forall k | 0 <= k < |args| - 1 ensures args[1..][k] == args[k + 1] { }
  }

  /** The first argument's store together with the rest of the stores. */
  lemma ArgStoresCombine(s: State, s1: State, t: State, st: Storage, args: seq<Operand>, j: nat)
    requires Valid(st) && AllMapped(st, args) && ArgsOnStack(st, args) && |args| > 0
    requires Get(s1, SP) == Get(s, SP)
    requires Load(s1, Get(s, SP) + ArgOffset(st, j)) == ValueOf(s, st, args[0])
    requires forall a :: a != Get(s, SP) + ArgOffset(st, j) ==> Load(s1, a) == Load(s, a)
    requires Get(t, SP) == Get(s1, SP)
    requires SameAbove(s1, t, Get(s1, SP) + ArgOffset(st, j + 1) + 4)
    requires forall m :: 0 <= m < |args[1..]| ==> ArgWord(t, Get(s1, SP), st, j + 1 + m) == ValueOf(s1, st, args[1..][m])
    ensures SameAbove(s, t, Get(s, SP) + ArgOffset(st, j) + 4)
    ensures forall m :: 0 <= m < |args| ==> ArgWord(t, Get(s, SP), st, j + m) == ValueOf(s, st, args[m])
  {
    var sp := Get(s, SP);
    assert SameAbove(s, s1, sp + st.spOff);
    forall m | 0 <= m < |args|
      ensures ArgWord(t, sp, st, j + m) == ValueOf(s, st, args[m])
    {
      if m == 0 {
        assert sp + ArgOffset(st, j) >= sp + ArgOffset(st, j + 1) + 4;
      } else {
        assert args[1..][m - 1] == args[m];
        assert ArgWord(t, sp, st, j + 1 + (m - 1)) == ValueOf(s1, st, args[m]);
        ValueOfFrame(s, s1, st, args[m]);
      }
    }
  }

  // ---------------------------------------------------------------------
  // Entering the callee

  /** The stack does not run past the word range. */
  predicate RoomFor(s: State, st: Storage, n: nat)
  {
    IsWord(Get(s, SP) + CallShift(st, n))
  }

  /** The word the prologue reads for parameter i of n: `4 * (n - 1 - i)`
      above `$sp`. */
  function ParamSource(c: State, n: int, i: int): int
  {
    Load(c, Get(c, SP) + 4 * (n - 1 - i))
  }

  /** At the `jal`, `$sp` is the caller's lowered by the frame, `$ra` is
      saved at `spOff - 4`, and argument k (0-based) of n sits at
      `4 * (n - 1 - k)` above the new `$sp`. */
  lemma CallEntryRun(s: State, st: Storage, args: seq<Operand>)
    requires Valid(st) && AllMapped(st, args) && ArgsOnStack(st, args) && RoomFor(s, st, |args|)
    ensures var c := Run(s, CallEntry(st, args));
      var n := |args|;
      && Get(c, SP) == Get(s, SP) + CallShift(st, n)
      && Load(c, Get(s, SP) + st.spOff - 4) == Get(s, RA)
      && forall k :: 0 <= k < n ==> ParamSource(c, n, k) == ValueOf(s, st, args[k])
  {
    var n := |args|;
    var s1 := Exec(s, Sw(RA, st.spOff - 4, SP));
    var s2 := Run(s1, ArgStores(st, args, 0));
    EntrySteps(s, st, args);
    SaveRa(s, st, args);
    ArgStoresRun(s1, st, args, 0);
    EntryCombine(s, s1, s2, st, args);
  }

  /** The entry code runs as its three parts. */
  lemma EntrySteps(s: State, st: Storage, args: seq<Operand>)
    requires AllMapped(st, args)
    ensures Run(s, CallEntry(st, args))
      == Exec(Run(Exec(s, Sw(RA, st.spOff - 4, SP)), ArgStores(st, args, 0)), AdduImm(SP, SP, CallShift(st, |args|)))
  {
    var save := Sw(RA, st.spOff - 4, SP);
    var stores := ArgStores(st, args, 0);
    var lower := AdduImm(SP, SP, CallShift(st, |args|));
    RunCons(s, save, stores);
    RunAppend(s, [save] + stores, [lower]);
    RunOne(Run(s, [save] + stores), lower);
  }

  /** Lowering `$sp` after the stores: argument k is found at
      `4 * (n - 1 - k)` above the new `$sp`. */
  lemma EntryCombine(s: State, s1: State, s2: State, st: Storage, args: seq<Operand>)
    requires Valid(st) && AllMapped(st, args) && RoomFor(s, st, |args|)
    requires Get(s1, SP) == Get(s, SP)
    requires Load(s1, Get(s, SP) + st.spOff - 4) == Get(s, RA)
    requires forall k :: 0 <= k < |args| ==> ValueOf(s1, st, args[k]) == ValueOf(s, st, args[k])
    requires Get(s2, SP) == Get(s1, SP)
    requires SameAbove(s1, s2, Get(s1, SP) + ArgOffset(st, 0) + 4)
    requires forall m :: 0 <= m < |args| ==> ArgWord(s2, Get(s1, SP), st, 0 + m) == ValueOf(s1, st, args[m])
    ensures var c := Exec(s2, AdduImm(SP, SP, CallShift(st, |args|)));
      var n := |args|;
      && Get(c, SP) == Get(s, SP) + CallShift(st, n)
      && Load(c, Get(s, SP) + st.spOff - 4) == Get(s, RA)
      && forall k :: 0 <= k < n ==> ParamSource(c, n, k) == ValueOf(s, st, args[k])
  {
    var n := |args|;
    var c := Exec(s2, AdduImm(SP, SP, CallShift(st, n)));
    WrapId(Get(s, SP) + CallShift(st, n));
    assert Load(s2, Get(s, SP) + st.spOff - 4) == Load(s1, Get(s, SP) + st.spOff - 4);
    forall k | 0 <= k < n ensures ParamSource(c, n, k) == ValueOf(s, st, args[k]) {
      assert Get(c, SP) + 4 * (n - 1 - k) == Get(s, SP) + ArgOffset(st, 0 + k);
      assert ArgWord(s2, Get(s1, SP), st, 0 + k) == ValueOf(s1, st, args[k]);
    }
  }

  /** Saving `$ra` touches no argument's word. */
  lemma SaveRa(s: State, st: Storage, args: seq<Operand>)
    requires Valid(st) && AllMapped(st, args) && ArgsOnStack(st, args)
    ensures var s1 := Exec(s, Sw(RA, st.spOff - 4, SP));
      && Get(s1, SP) == Get(s, SP)
      && Load(s1, Get(s, SP) + st.spOff - 4) == Get(s, RA)
      && forall k :: 0 <= k < |args| ==> ValueOf(s1, st, args[k]) == ValueOf(s, st, args[k])
  {
    var s1 := Exec(s, Sw(RA, st.spOff - 4, SP));
    WrapId(Get(s, RA));
    assert SameAbove(s, s1, Get(s, SP) + st.spOff);
    forall k | 0 <= k < |args| ensures ValueOf(s1, st, args[k]) == ValueOf(s, st, args[k]) {
      ValueOfFrame(s, s1, st, args[k]);
    }
  }

  // ---------------------------------------------------------------------
  // The callee prologue

  /** Fresh, pairwise distinct parameter names. */
  ghost predicate FreshParams(st: Storage, params: seq<string>)
  {
    && (forall i :: 0 <= i < |params| ==> params[i] !in st.slots)
    && (forall i, j :: 0 <= i < j < |params| ==> params[i] != params[j])
  }

  /** What the prologue leaves for parameter i: its word is the i-th below
      the cursor and holds the word read from `4 * (n - 1 - i)`. */
  ghost predicate ParamRead(c: State, t: State, st: Storage, r: Storage, params: seq<string>, i: int)
    requires 0 <= i < |params|
  {
    && params[i] in r.slots
    && r.slots[params[i]] == StackSlot(st.spOff - 4 * (i + 1))
    && Load(t, Get(c, SP) + st.spOff - 4 * (i + 1)) == ParamSource(c, |params|, i)
  }

  /** The first parameter: one load from above `$sp`, one store below. */
  lemma PrologueHead(c: State, st: Storage, p: string, n: nat)
    requires p !in st.slots && n >= 1
    ensures var code := [Lw(T0, 4 * (n - 1), SP)] + StoreCode(GetSp(st, p), T0, p);
      var c2 := Run(c, code);
      && Get(c2, SP) == Get(c, SP)
      && Load(c2, Get(c, SP) + st.spOff - 4) == ParamSource(c, n, 0)
      && forall a :: a != Get(c, SP) + st.spOff - 4 ==> Load(c2, a) == Load(c, a)
  {
    var off := st.spOff - 4;
    var ld := Lw(T0, 4 * (n - 1), SP);
    assert StoreCode(GetSp(st, p), T0, p) == [Sw(T0, off, SP)];
    var c1 := Exec(c, ld);
    RunCons(c, ld, [Sw(T0, off, SP)]);
    RunOne(c1, Sw(T0, off, SP));
    WrapId(Load(c, Get(c, SP) + 4 * (n - 1)));
  }

  lemma FreshTail(st: Storage, params: seq<string>)
    requires |params| > 0 && Valid(st) && FreshParams(st, params)
    ensures FreshParams(GetSp(st, params[0]), params[1..]) && Valid(GetSp(st, params[0]))
  {
    var st1 := GetSp(st, params[0]);
    forall i | 0 <= i < |params| - 1 ensures params[1..][i] !in st1.slots {
      assert params[1..][i] == params[i + 1];
    }
    forall i, j | 0 <= i < j < |params| - 1 ensures params[1..][i] != params[1..][j] {
      assert params[1..][i] == params[i + 1] && params[1..][j] == params[j + 1];
    }
  }

  /** The prologue only adds the parameters: any other name keeps its slot. */
  lemma {:induction false} PrologueKeepsKey(st: Storage, params: seq<string>, x: string)
    requires x in st.slots && forall i :: 0 <= i < |params| ==> params[i] != x
    ensures var r := CalleePrologue(st, params);
      x in r.0.slots && r.0.slots[x] == st.slots[x]
    decreases |params|
  {
    if |params| > 0 {
      var st1 := GetSp(st, params[0]);
      forall i | 0 <= i < |params| - 1 ensures params[1..][i] != x {
        assert params[1..][i] == params[i + 1];
      }
      PrologueKeepsKey(st1, params[1..], x);
    }
  }

  /** Reading the parameters: parameter i gets the next word below the
      cursor and receives the word at `4 * (n - 1 - i)` above `$sp`; `$sp`
      and everything at or above the cursor stay. */
  lemma {:induction false} PrologueRun(c: State, st: Storage, params: seq<string>)
    requires Valid(st) && FreshParams(st, params)
    ensures var r := CalleePrologue(st, params);
      var t := Run(c, r.1);
      && Valid(r.0)
      && Get(t, SP) == Get(c, SP)
      && SameAbove(c, t, Get(c, SP) + st.spOff)
      && forall i :: 0 <= i < |params| ==> ParamRead(c, t, st, r.0, params, i)
    decreases |params|
  {
    var r := CalleePrologue(st, params);
    if |params| > 0 {
      var n := |params|;
      var p := params[0];
      var st1 := GetSp(st, p);
      var code := [Lw(T0, 4 * (n - 1), SP)] + StoreCode(st1, T0, p);
      var rest := CalleePrologue(st1, params[1..]);
      assert r.1 == code + rest.1 && r.0 == rest.0;
      RunAppend(c, code, rest.1);
      PrologueHead(c, st, p, n);
      var c2 := Run(c, code);
      FreshTail(st, params);
      forall i | 0 <= i < n - 1 ensures params[1..][i] != p {
        assert params[1..][i] == params[i + 1];
      }
      PrologueKeepsKey(st1, params[1..], p);
      PrologueRun(c2, st1, params[1..]);
      var t := Run(c2, rest.1);
      PrologueCombine(c, c2, t, st, st1, r.0, params);
    }
  }

  /** Putting the first parameter's step together with the rest. */
  lemma PrologueCombine(c: State, c2: State, t: State, st: Storage, st1: Storage, r: Storage, params: seq<string>)
    requires |params| > 0 && Valid(st) && FreshParams(st, params)
    requires st1 == GetSp(st, params[0])
    requires Get(c2, SP) == Get(c, SP)
    requires Load(c2, Get(c, SP) + st.spOff - 4) == ParamSource(c, |params|, 0)
    requires forall a :: a != Get(c, SP) + st.spOff - 4 ==> Load(c2, a) == Load(c, a)
    requires Get(t, SP) == Get(c2, SP)
    requires SameAbove(c2, t, Get(c2, SP) + st1.spOff)
    requires forall i :: 0 <= i < |params| - 1 ==> ParamRead(c2, t, st1, r, params[1..], i)
    requires params[0] in r.slots && r.slots[params[0]] == st1.slots[params[0]]
    ensures SameAbove(c, t, Get(c, SP) + st.spOff)
    ensures forall i :: 0 <= i < |params| ==> ParamRead(c, t, st, r, params, i)
  {
    var n := |params|;
    forall i | 0 <= i < n ensures ParamRead(c, t, st, r, params, i) {
      if i > 0 {
        assert ParamRead(c2, t, st1, r, params[1..], i - 1);
        assert params[1..][i - 1] == params[i];
        assert st1.spOff - 4 * (i - 1 + 1) == st.spOff - 4 * (i + 1);
        assert 4 * (n - 1 - 1 - (i - 1)) == 4 * (n - 1 - i);
        assert ParamSource(c2, n - 1, i - 1) == ParamSource(c, n, i);
      }
    }
  }

  /** Every argument reaches its parameter: after the caller's entry code
      and the callee's prologue, parameter i's word holds the caller's
      argument i. */
  lemma ArgumentsReachParameters(s: State, st: Storage, args: seq<Operand>, callee: Storage, params: seq<string>)
    requires Valid(st) && AllMapped(st, args) && ArgsOnStack(st, args) && RoomFor(s, st, |args|)
    requires |params| == |args| && Valid(callee) && FreshParams(callee, params)
    ensures var c := Run(s, CallEntry(st, args));
      var r := CalleePrologue(callee, params);
      forall i :: 0 <= i < |params| ==>
        && params[i] in r.0.slots && r.0.slots[params[i]].StackSlot?
        && Load(Run(c, r.1), SlotAddr(c, r.0.slots[params[i]].off)) == ValueOf(s, st, args[i])
  {
    var n := |args|;
    CallEntryRun(s, st, args);
    var c := Run(s, CallEntry(st, args));
    PrologueRun(c, callee, params);
    var r := CalleePrologue(callee, params);
    var t := Run(c, r.1);
    forall i | 0 <= i < n
      ensures params[i] in r.0.slots && r.0.slots[params[i]].StackSlot?
      ensures Load(t, SlotAddr(c, r.0.slots[params[i]].off)) == ValueOf(s, st, args[i])
    {
      ParamReaches(c, t, callee, r.0, params, i, ValueOf(s, st, args[i]));
    }
  }

  /** Parameter i's word holds whatever the prologue read for it. */
  lemma ParamReaches(c: State, t: State, st: Storage, r: Storage, params: seq<string>, i: int, v: int)
    requires 0 <= i < |params| && ParamRead(c, t, st, r, params, i)
    requires ParamSource(c, |params|, i) == v
    ensures params[i] in r.slots && r.slots[params[i]].StackSlot?
    ensures Load(t, SlotAddr(c, r.slots[params[i]].off)) == v
  {
  }

  // ---------------------------------------------------------------------
  // Returning

  /** The two `$sp` adjustments of a call cancel out. */
  lemma ShiftsCancel(st: Storage, n: nat)
    ensures CallShift(st, n) + (-st.spOff + 4 * (n + 1)) == 0
    ensures CallExit(st, n, None)[0] == AdduImm(SP, SP, -CallShift(st, n))
  {
  }

  /** If the callee hands back the `$sp` it was entered with and leaves the
      saved `$ra` word alone, the exit code restores the caller's `$sp` and
      `$ra`, and stores the returned `$v0` into the call's word. */
  lemma CallExitRun(s: State, st: Storage, n: nat, result: Option<string>, r: State)
    requires RoomFor(s, st, n)
    requires Get(r, SP) == Get(s, SP) + CallShift(st, n)
    requires Load(r, Get(s, SP) + st.spOff - 4) == Get(s, RA)
    requires result.Some? ==> result.value in st.slots && st.slots[result.value].StackSlot?
    ensures var t := Run(r, CallExit(st, n, result));
      && Get(t, SP) == Get(s, SP)
      && Get(t, RA) == Get(s, RA)
      && (result.Some? ==> Load(t, SlotAddr(s, st.slots[result.value].off)) == Get(r, V0))
  {
    var up := AdduImm(SP, SP, -st.spOff + 4 * (n + 1));
    var reload := Lw(RA, st.spOff - 4, SP);
    var r1 := Exec(r, up);
    var r2 := Exec(r1, reload);
    var tail := if result.Some? then StoreCode(st, V0, result.value) else [];
    assert CallExit(st, n, result) == [up] + ([reload] + tail);
    RunCons(r, up, [reload] + tail);
    RunCons(r1, reload, tail);
    WrapId(Get(s, SP));
    assert Get(r1, SP) == Get(s, SP);
    WrapId(Get(s, RA));
    if result.Some? {
      StoreStackEffect(r2, st, V0, result.value);
    }
  }

  /** `parseRet` leaves the returned value in `$v0`. */
  lemma RetRun(s: State, st: Storage, v: Operand)
    requires Mapped(st, v)
    ensures Get(Run(s, RetCode(st, Some(v))), V0) == ValueOf(s, st, v)
  {
    LoadEffect(s, st, V0, v);
    RunAppend(s, LoadCode(st, V0, v), [Jr(RA)]);
    RunOne(Run(s, LoadCode(st, V0, v)), Jr(RA));
  }

  // ---------------------------------------------------------------------
  // Library functions

  /** `parseCall` of a library function, chosen by name: `getint` runs its
      macro and stores `$v0` into the call's word, `putint` and `putch`
      load their argument into `$a0` first, `putstr` expects `$a0` to hold
      the string's address already, and any other name emits nothing. */
  function LibCallCode(st: Storage, name: string, arg: Option<Operand>, result: string): seq<Instr>
    requires result in st.slots
    requires name == "putint" || name == "putch" ==> arg.Some? && Mapped(st, arg.value)
  {
    if name == "getint" then [Call(GetInt)] + StoreCode(st, V0, result)
    else if name == "putint" then LoadCode(st, A0, arg.value) + [Call(PutInt)]
    else if name == "putch" then LoadCode(st, A0, arg.value) + [Call(PutCh)]
    else if name == "putstr" then [Call(PutStr)]
    else []
  }

  /** `getint` consumes one input word and leaves it in the call's word;
      nothing is written to the console. */
  lemma GetIntRun(s: State, st: Storage, result: string)
    requires result in st.slots && st.slots[result].StackSlot? && |s.input| > 0
    ensures var t := Run(s, LibCallCode(st, "getint", None, result));
      && Load(t, SlotAddr(s, st.slots[result].off)) == Wrap(s.input[0])
      && t.input == s.input[1..]
      && t.out == s.out
  {
    var s1 := Exec(s, Call(GetInt));
    RunCons(s, Call(GetInt), StoreCode(st, V0, result));
    StoreStackEffect(s1, st, V0, result);
    assert Get(s1, SP) == Get(s, SP);
  }

  /** `putint` and `putch` print their argument's value and consume no input. */
  lemma PutRun(s: State, st: Storage, name: string, arg: Operand, result: string)
    requires result in st.slots && Mapped(st, arg)
    requires name == "putint" || name == "putch"
    ensures var t := Run(s, LibCallCode(st, name, Some(arg), result));
      && t.out == s.out + [if name == "putint" then OutInt(ValueOf(s, st, arg)) else OutChar(ValueOf(s, st, arg))]
      && t.input == s.input
      && t.mem == s.mem
  {
    var m := if name == "putint" then PutInt else PutCh;
    var s1 := Set(s, A0, ValueOf(s, st, arg));
    LoadEffect(s, st, A0, arg);
    RunAppend(s, LoadCode(st, A0, arg), [Call(m)]);
    RunOne(s1, Call(m));
    WrapId(ValueOf(s, st, arg));
  }

  /** A `printf` segment: the string GEP puts the string's address in `$a0`
      and `putstr` prints the string at that address. */
  lemma PrintStringRun(s: State, st: Storage, gep: string, str: string, result: string)
    requires gep in st.slots && result in st.slots
    ensures var t := Run(s, Gep.GepCode(st, gep, Gep.StringConst(str), []) + LibCallCode(st, "putstr", None, result));
      && t.out == s.out + [OutStr(Label(s, str))]
      && t.input == s.input
      && t.mem == s.mem
  {
    var g := Gep.GepCode(st, gep, Gep.StringConst(str), []);
    assert g == [La(A0, str)];
    RunAppend(s, g, [Call(PutStr)]);
    RunOne(s, La(A0, str));
    var s1 := Exec(s, La(A0, str));
    RunOne(s1, Call(PutStr));
    WrapId(Label(s, str));
  }
}
