/** Def-use bookkeeping of an IR `User`: its operand list and the use
    records the operands keep. Values are identified by number; a null
    operand is `None`. `Value.addUse` appends a record to the value's use
    list and `Value.removeUseByUser(u)` deletes every record whose user is
    u; `Value` itself is not part of this model, so these two are taken
    as stated. */
module DefUse {
  import opened Base

  type ValueId = nat

  /** A `Use` as the used value keeps it: which user, at which position. */
  datatype UseRec = UseRec(user: ValueId, pos: nat)

  type Uses = map<ValueId, seq<UseRec>>

  /** A user (the value `self`), its operands, and every value's use list. */
  datatype DU = DU(self: ValueId, ops: seq<Option<ValueId>>, uses: Uses)

  function UsesOf(uses: Uses, v: ValueId): seq<UseRec>
  {
    if v in uses then uses[v] else []
  }

  /** `v.addUse(rec)` */
  function AddUse(uses: Uses, v: ValueId, rec: UseRec): (r: Uses)
    ensures UsesOf(r, v) == UsesOf(uses, v) + [rec]
    ensures forall w :: w != v ==> UsesOf(r, w) == UsesOf(uses, w)
  {
    uses[v := UsesOf(uses, v) + [rec]]
  }

  /** The records not made by user u, in order. */
  function WithoutUser(recs: seq<UseRec>, u: ValueId): (r: seq<UseRec>)
    ensures forall rec :: rec in r <==> rec in recs && rec.user != u
    ensures |r| <= |recs|
    decreases |recs|
  {
    if |recs| == 0 then []
    else (if recs[0].user == u then [] else [recs[0]]) + WithoutUser(recs[1..], u)
  }

  /** `v.removeUseByUser(u)` */
  function RemoveUseByUser(uses: Uses, v: ValueId, u: ValueId): (r: Uses)
    ensures forall rec :: rec in UsesOf(r, v) <==> rec in UsesOf(uses, v) && rec.user != u
    ensures forall w :: w != v ==> UsesOf(r, w) == UsesOf(uses, w)
  {
    uses[v := WithoutUser(UsesOf(uses, v), u)]
  }

  // ---------------------------------------------------------------------
  // Invariants of the bookkeeping

  /** Every non-null slot is recorded in its value's use list. */
  predicate Covered(d: DU)
  {
    CoveredBut(d, None)
  }

  /** Every non-null slot not holding x is recorded in its value's use list. */
  predicate CoveredBut(d: DU, x: Option<ValueId>)
  {
    forall p :: 0 <= p < |d.ops| && d.ops[p].Some? && d.ops[p] != x ==> UseRec(d.self, p) in UsesOf(d.uses, d.ops[p].value)
  }

  /** A value that is no operand keeps no record of this user. */
  ghost predicate NoStale(d: DU)
  {
    forall v: ValueId, rec: UseRec :: Some(v) !in d.ops && rec in UsesOf(d.uses, v) ==> rec.user != d.self
  }

  /** The records of this user are exactly its non-null slots. */
  ghost predicate Exact(d: DU)
  {
    Covered(d) &&
    forall v: ValueId, rec: UseRec :: rec in UsesOf(d.uses, v) && rec.user == d.self ==>
      rec.pos < |d.ops| && d.ops[rec.pos] == Some(v)
  }

  /** The use records of other users are the same in both maps. */
  ghost predicate OthersKept(u: ValueId, a: Uses, b: Uses)
  {
    forall v: ValueId, rec: UseRec :: rec.user != u ==> (rec in UsesOf(a, v) <==> rec in UsesOf(b, v))
  }

  // ---------------------------------------------------------------------
  // Operations

  /** `addOperand(v)`: append, and record the use at the new last slot. */
  function AddOperand(d: DU, v: Option<ValueId>): (r: DU)
    ensures r.self == d.self && r.ops == d.ops + [v]
    ensures v.Some? ==> UsesOf(r.uses, v.value) == UsesOf(d.uses, v.value) + [UseRec(d.self, |d.ops|)]
    ensures forall w: ValueId :: v != Some(w) ==> UsesOf(r.uses, w) == UsesOf(d.uses, w)
    ensures Covered(d) ==> Covered(r)
    ensures NoStale(d) ==> NoStale(r)
  {
    var ops := d.ops + [v];
    var r := DU(d.self, ops, if v.Some? then AddUse(d.uses, v.value, UseRec(d.self, |d.ops|)) else d.uses);
    assert forall p :: 0 <= p < |d.ops| ==> ops[p] == d.ops[p];
    r
  }

  /** `setOperands(pos, v)` and `addOperand(pos, v)`, which do the same:
      nothing for a position past the end; otherwise only slot pos
      changes, and a non-null v records a use there. The old operand's
      records are left as they are. */
  function SetOperand(d: DU, pos: nat, v: Option<ValueId>): (r: DU)
    ensures pos >= |d.ops| ==> r == d
    ensures r.self == d.self && |r.ops| == |d.ops|
    ensures pos < |d.ops| ==> r.ops[pos] == v
    ensures forall p :: 0 <= p < |d.ops| && p != pos ==> r.ops[p] == d.ops[p]
    ensures pos < |d.ops| && v.Some? ==> UsesOf(r.uses, v.value) == UsesOf(d.uses, v.value) + [UseRec(d.self, pos)]
    ensures forall w: ValueId :: pos >= |d.ops| || v != Some(w) ==> UsesOf(r.uses, w) == UsesOf(d.uses, w)
    ensures Covered(d) ==> Covered(r)
  {
    if pos >= |d.ops| then d
    else DU(d.self, d.ops[pos := v], if v.Some? then AddUse(d.uses, v.value, UseRec(d.self, pos)) else d.uses)
  }

  /** `removeUseFromOperands`: every non-null operand drops this user's
      records; the operand list stays as it is. */
  function RemoveUseFromOperands(d: DU): (r: DU)
    ensures r.self == d.self && r.ops == d.ops
    ensures forall v: ValueId, rec: UseRec :: Some(v) in d.ops && rec in UsesOf(r.uses, v) ==> rec.user != d.self
    ensures forall v: ValueId :: Some(v) !in d.ops ==> UsesOf(r.uses, v) == UsesOf(d.uses, v)
    ensures OthersKept(d.self, d.uses, r.uses)
  {
    d.(uses := Detach(d.uses, d.self, d.ops))
  }

  /** The loop of `removeUseFromOperands` over the given operands. */
  function Detach(uses: Uses, u: ValueId, ops: seq<Option<ValueId>>): (r: Uses)
    ensures forall v: ValueId, rec: UseRec :: Some(v) in ops && rec in UsesOf(r, v) ==> rec.user != u
    ensures forall v: ValueId :: Some(v) !in ops ==> UsesOf(r, v) == UsesOf(uses, v)
    ensures OthersKept(u, uses, r)
    decreases |ops|
  {
    if |ops| == 0 then uses
    else
      var u1 := if ops[0].Some? then RemoveUseByUser(uses, ops[0].value, u) else uses;
      var r := Detach(u1, u, ops[1..]);
      assert forall v: ValueId :: Some(v) in ops <==> ops[0] == Some(v) || Some(v) in ops[1..];
      r
  }

  /** The operands whose positions are not in idx, in order. */
  function Kept(ops: seq<Option<ValueId>>, idx: set<nat>): (r: seq<Option<ValueId>>)
    ensures |r| <= |ops|
    decreases |ops|
  {
    if |ops| == 0 then []
    else Kept(ops[..|ops| - 1], idx) + (if |ops| - 1 in idx then [] else [ops[|ops| - 1]])
  }

  /** A kept position holds a null operand, on which `addUse` fails. */
  predicate KeepsNull(ops: seq<Option<ValueId>>, idx: set<nat>)
  {
    exists i :: 0 <= i < |ops| && i !in idx && ops[i].None?
  }

  /** `removeNumberOperand(idx)`: detach, then put back the operands at
      positions outside idx, each recording a use at its new position.
      A kept null operand makes it fail (`None`). */
  function RemoveNumberOperand(d: DU, idx: set<nat>): (r: Option<DU>)
    ensures r.None? <==> KeepsNull(d.ops, idx)
    ensures r.Some? ==> r.value.self == d.self && r.value.ops == Kept(d.ops, idx)
    ensures r.Some? ==> Covered(r.value)
    ensures r.Some? && NoStale(d) ==> Exact(r.value)
  {
    var detached := RemoveUseFromOperands(d);
    NoRecordsAfterDetach(d, detached);
    var r := Rebuild(d.self, d.ops, idx, 0, [], detached.uses);
    if r.Some? then
      TracksExact(r.value);
      r
    else r
  }

  /** After detaching, no value keeps a record of this user. */
  lemma NoRecordsAfterDetach(d: DU, detached: DU)
    requires detached == RemoveUseFromOperands(d)
    ensures NoStale(d) ==> OnlyTracks(d.self, [], detached.uses)
  {
  }

  /** Slot p of acc is non-null and recorded at p. */
  ghost predicate Tracks(u: ValueId, acc: seq<Option<ValueId>>, uses: Uses)
  {
    forall p :: 0 <= p < |acc| ==> acc[p].Some? && UseRec(u, p) in UsesOf(uses, acc[p].value)
  }

  /** Every record of user u points at a slot of acc holding its value. */
  ghost predicate OnlyTracks(u: ValueId, acc: seq<Option<ValueId>>, uses: Uses)
  {
    forall v: ValueId, rec: UseRec :: rec in UsesOf(uses, v) && rec.user == u ==> rec.pos < |acc| && acc[rec.pos] == Some(v)
  }

  /** Appending an operand together with its record keeps both. */
  lemma TrackAppend(u: ValueId, acc: seq<Option<ValueId>>, uses: Uses, v: ValueId)
    ensures Tracks(u, acc, uses) ==> Tracks(u, acc + [Some(v)], AddUse(uses, v, UseRec(u, |acc|)))
    ensures OnlyTracks(u, acc, uses) ==> OnlyTracks(u, acc + [Some(v)], AddUse(uses, v, UseRec(u, |acc|)))
  {
    var acc1 := acc + [Some(v)];
    assert forall p :: 0 <= p < |acc| ==> acc1[p] == acc[p];
  }

  lemma TracksExact(d: DU)
    requires Tracks(d.self, d.ops, d.uses)
    ensures Covered(d)
    ensures OnlyTracks(d.self, d.ops, d.uses) ==> Exact(d)
  {
  }

  /** The rebuilding loop of `removeNumberOperand`, at old position i with
      the kept operands `acc` so far. */
  function Rebuild(u: ValueId, ops: seq<Option<ValueId>>, idx: set<nat>, i: nat, acc: seq<Option<ValueId>>, uses: Uses): (r: Option<DU>)
    requires i <= |ops| && acc == Kept(ops[..i], idx)
    requires Tracks(u, acc, uses)
    ensures r.None? <==> exists j :: i <= j < |ops| && j !in idx && ops[j].None?
    ensures r.Some? ==> r.value.self == u && r.value.ops == Kept(ops, idx) && Tracks(u, r.value.ops, r.value.uses)
    ensures r.Some? && OnlyTracks(u, acc, uses) ==> OnlyTracks(u, r.value.ops, r.value.uses)
    decreases |ops| - i
  {
    if i == |ops| then
      assert ops[..i] == ops;
      Some(DU(u, acc, uses))
    else
      assert ops[..i + 1][..i] == ops[..i];
      if i in idx then
        Rebuild(u, ops, idx, i + 1, acc, uses)
      else if ops[i].None? then
        None
      else
        var v := ops[i].value;
        TrackAppend(u, acc, uses, v);
        Rebuild(u, ops, idx, i + 1, acc + [ops[i]], AddUse(uses, v, UseRec(u, |acc|)))
  }

  /** `replaceOperands(i, v)` as corrected: set slot i, then drop the old
      operand's records of this user when it is no longer an operand. */
  function ReplaceAt(d: DU, i: nat, v: Option<ValueId>): (r: DU)
    requires i < |d.ops|
    ensures r.self == d.self && r.ops == d.ops[i := v]
    ensures forall x :: CoveredBut(d, x) ==> CoveredBut(r, x)
    ensures NoStale(d) ==> NoStale(r)
    ensures forall w: ValueId, rec: UseRec :: Some(w) != v && rec in UsesOf(r.uses, w) ==> rec in UsesOf(d.uses, w)
  {
    var prev := d.ops[i];
    var s := SetOperand(d, i, v);
    if prev.Some? && prev !in s.ops then
      var r := s.(uses := RemoveUseByUser(s.uses, prev.value, d.self));
      assert forall p :: 0 <= p < |r.ops| && r.ops[p].Some? ==> r.ops[p] != prev;
      r
    else s
  }

  /** `replaceOperands(i, v)` as the source writes it: the guard tests
      the new value, which `setOperands` has just stored. */
  function ReplaceAtAsWritten(d: DU, i: nat, v: Option<ValueId>): (r: DU)
    requires i < |d.ops|
    ensures r == SetOperand(d, i, v)
  {
    var prev := d.ops[i];
    var s := SetOperand(d, i, v);
    match prev
    case Some(o) => if v !in s.ops then s.(uses := RemoveUseByUser(s.uses, o, d.self)) else s
    case None => s
  }

  /** `replaceOperands(old, new)`: drop the old value's records of this
      user, then replace every slot holding it. */
  function ReplaceValue(d: DU, oldV: ValueId, newV: Option<ValueId>): (r: DU)
    requires newV != Some(oldV)
    ensures r.self == d.self && |r.ops| == |d.ops|
    ensures forall p :: 0 <= p < |d.ops| ==> r.ops[p] == (if d.ops[p] == Some(oldV) then newV else d.ops[p])
    ensures Some(oldV) !in r.ops
    ensures forall rec :: rec in UsesOf(r.uses, oldV) ==> rec.user != d.self
    ensures Covered(d) ==> Covered(r)
    ensures NoStale(d) ==> NoStale(r)
  {
    var d1 := d.(uses := RemoveUseByUser(d.uses, oldV, d.self));
    ReplaceFrom(d1, oldV, newV, 0)
  }

  /** The loop of `replaceOperands(old, new)` from slot i on. */
  function ReplaceFrom(d: DU, oldV: ValueId, newV: Option<ValueId>, i: nat): (r: DU)
    requires newV != Some(oldV) && i <= |d.ops|
    requires forall rec :: rec in UsesOf(d.uses, oldV) ==> rec.user != d.self
    ensures r.self == d.self && |r.ops| == |d.ops|
    ensures forall p :: 0 <= p < i ==> r.ops[p] == d.ops[p]
    ensures forall p :: i <= p < |d.ops| ==> r.ops[p] == (if d.ops[p] == Some(oldV) then newV else d.ops[p])
    ensures forall rec :: rec in UsesOf(r.uses, oldV) ==> rec.user != d.self
    ensures CoveredBut(d, Some(oldV)) ==> CoveredBut(r, Some(oldV))
    ensures NoStale(d) ==> NoStale(r)
    decreases |d.ops| - i
  {
    if i == |d.ops| then d
    else if d.ops[i] == Some(oldV) then ReplaceFrom(ReplaceAt(d, i, newV), oldV, newV, i + 1)
    else ReplaceFrom(d, oldV, newV, i + 1)
  }

  /** `replaceOperands(old, new)` as the source writes it: the loop calls
      `replaceOperands(i, new)` with its dead guard. */
  function ReplaceValueAsWritten(d: DU, oldV: ValueId, newV: Option<ValueId>): (r: DU)
    ensures r.self == d.self && |r.ops| == |d.ops|
    ensures forall p :: 0 <= p < |d.ops| ==> r.ops[p] == (if d.ops[p] == Some(oldV) then newV else d.ops[p])
  {
    var d1 := d.(uses := RemoveUseByUser(d.uses, oldV, d.self));
    ReplaceFromAsWritten(d1, oldV, newV, 0)
  }

  /** The loop of `replaceOperands(old, new)` as written, from slot i on. */
  function ReplaceFromAsWritten(d: DU, oldV: ValueId, newV: Option<ValueId>, i: nat): (r: DU)
    requires i <= |d.ops|
    ensures r.self == d.self && |r.ops| == |d.ops|
    ensures forall p :: 0 <= p < i ==> r.ops[p] == d.ops[p]
    ensures forall p :: i <= p < |d.ops| ==> r.ops[p] == (if d.ops[p] == Some(oldV) then newV else d.ops[p])
    decreases |d.ops| - i
  {
    if i == |d.ops| then d
    else if d.ops[i] == Some(oldV) then ReplaceFromAsWritten(ReplaceAtAsWritten(d, i, newV), oldV, newV, i + 1)
    else ReplaceFromAsWritten(d, oldV, newV, i + 1)
  }

  /** Two bookkeeping states that no lookup tells apart: the same user,
      the same operands and the same use list for every value. */
  ghost predicate SameUses(a: DU, b: DU)
  {
    a.self == b.self && a.ops == b.ops && forall w: ValueId :: UsesOf(a.uses, w) == UsesOf(b.uses, w)
  }

  /** `setOperands` reads the use lists only through their lookups. */
  lemma SetOperandRespects(a: DU, b: DU, pos: nat, v: Option<ValueId>)
    requires SameUses(a, b)
    ensures SameUses(SetOperand(a, pos, v), SetOperand(b, pos, v))
  {
    var ra, rb := SetOperand(a, pos, v), SetOperand(b, pos, v);
    forall w: ValueId ensures UsesOf(ra.uses, w) == UsesOf(rb.uses, w) {
      if pos < |a.ops| && v == Some(w) {
        assert UsesOf(ra.uses, w) == UsesOf(a.uses, w) + [UseRec(a.self, pos)];
      }
    }
  }

  /** One matching slot: both replacements keep the states alike, and the
      corrected one leaves the old value without records of this user. */
  lemma ReplaceStepAgrees(da: DU, dc: DU, oldV: ValueId, newV: Option<ValueId>, i: nat)
    requires newV != Some(oldV) && i < |dc.ops| && dc.ops[i] == Some(oldV)
    requires forall rec :: rec in UsesOf(dc.uses, oldV) ==> rec.user != dc.self
    requires SameUses(da, dc)
    ensures SameUses(ReplaceAtAsWritten(da, i, newV), ReplaceAt(dc, i, newV))
    ensures forall rec :: rec in UsesOf(ReplaceAt(dc, i, newV).uses, oldV) ==> rec.user != dc.self
  {
    SetOperandRespects(da, dc, i, newV);
    GuardIrrelevantWithoutRecords(dc, i, newV, oldV);
  }

  /** A matching slot: both loops replace it and go on from the next. */
  lemma MatchUnfolds(da: DU, dc: DU, oldV: ValueId, newV: Option<ValueId>, i: nat)
    requires newV != Some(oldV) && i < |dc.ops| && dc.ops[i] == Some(oldV) && da.ops == dc.ops
    requires forall rec :: rec in UsesOf(dc.uses, oldV) ==> rec.user != dc.self
    requires forall rec :: rec in UsesOf(ReplaceAt(dc, i, newV).uses, oldV) ==> rec.user != dc.self
    requires SameUses(ReplaceFromAsWritten(ReplaceAtAsWritten(da, i, newV), oldV, newV, i + 1),
                      ReplaceFrom(ReplaceAt(dc, i, newV), oldV, newV, i + 1))
    ensures SameUses(ReplaceFromAsWritten(da, oldV, newV, i), ReplaceFrom(dc, oldV, newV, i))
  {
  }

  /** Any other slot: both loops go on from the next. */
  lemma SkipUnfolds(da: DU, dc: DU, oldV: ValueId, newV: Option<ValueId>, i: nat)
    requires newV != Some(oldV) && i < |dc.ops| && dc.ops[i] != Some(oldV) && da.ops == dc.ops
    requires forall rec :: rec in UsesOf(dc.uses, oldV) ==> rec.user != dc.self
    requires SameUses(ReplaceFromAsWritten(da, oldV, newV, i + 1), ReplaceFrom(dc, oldV, newV, i + 1))
    ensures SameUses(ReplaceFromAsWritten(da, oldV, newV, i), ReplaceFrom(dc, oldV, newV, i))
  {
  }

  /** The loop as written and the corrected loop keep the same operands
      and the same use lists, once the old value keeps no record of this
      user. */
  lemma {:induction false} ReplaceFromAsWrittenAgrees(da: DU, dc: DU, oldV: ValueId, newV: Option<ValueId>, i: nat)
    requires newV != Some(oldV) && i <= |dc.ops|
    requires forall rec :: rec in UsesOf(dc.uses, oldV) ==> rec.user != dc.self
    requires SameUses(da, dc)
    ensures SameUses(ReplaceFromAsWritten(da, oldV, newV, i), ReplaceFrom(dc, oldV, newV, i))
    decreases |dc.ops| - i
  {
    if i < |dc.ops| {
      if dc.ops[i] == Some(oldV) {
        ReplaceStepAgrees(da, dc, oldV, newV, i);
        ReplaceFromAsWrittenAgrees(ReplaceAtAsWritten(da, i, newV), ReplaceAt(dc, i, newV), oldV, newV, i + 1);
        MatchUnfolds(da, dc, oldV, newV, i);
      } else {
        ReplaceFromAsWrittenAgrees(da, dc, oldV, newV, i + 1);
        SkipUnfolds(da, dc, oldV, newV, i);
      }
    }
  }

  /** `replaceOperands(old, new)` as written ends in the same operands and
      use lists as the corrected one: the dead guard of the single-slot
      replacement does not matter here, because the old value's records
      of this user are dropped before the loop. */
  lemma ReplaceValueAsWrittenAgrees(d: DU, oldV: ValueId, newV: Option<ValueId>)
    requires newV != Some(oldV)
    ensures SameUses(ReplaceValueAsWritten(d, oldV, newV), ReplaceValue(d, oldV, newV))
  {
    var d1 := d.(uses := RemoveUseByUser(d.uses, oldV, d.self));
    ReplaceFromAsWrittenAgrees(d1, d1, oldV, newV, 0);
  }

  // ---------------------------------------------------------------------
  // The guard of replaceOperands(int, Value)

  /** Corrected, the old operand o keeps a record of this user exactly
      when it is still an operand after the replacement. */
  lemma ReplaceAtKeepsRecordIffStillUsed(d: DU, i: nat, v: Option<ValueId>, o: ValueId)
    requires i < |d.ops| && d.ops[i] == Some(o) && v != Some(o)
    requires Covered(d) && NoStale(d)
    ensures var r := ReplaceAt(d, i, v);
      (exists rec :: rec in UsesOf(r.uses, o) && rec.user == d.self) <==> Some(o) in r.ops
  {
    var r := ReplaceAt(d, i, v);
    if Some(o) in r.ops {
      var p :| 0 <= p < |r.ops| && r.ops[p] == Some(o);
      assert CoveredBut(r, None);
      assert UseRec(d.self, p) in UsesOf(r.uses, o);
    }
  }

  /** Filtering out a user with no records changes nothing. */
  lemma {:induction false} WithoutAbsentUser(recs: seq<UseRec>, u: ValueId)
    requires forall rec :: rec in recs ==> rec.user != u
    ensures WithoutUser(recs, u) == recs
    decreases |recs|
  {
    if |recs| > 0 {
      assert recs[0] in recs;
      assert forall rec :: rec in recs[1..] ==> rec in recs;
      WithoutAbsentUser(recs[1..], u);
    }
  }

  /** When the old operand keeps no record of this user, as in the loop of
      `replaceOperands(old, new)`, the two guards give the same use lists. */
  lemma GuardIrrelevantWithoutRecords(d: DU, i: nat, v: Option<ValueId>, o: ValueId)
    requires i < |d.ops| && d.ops[i] == Some(o) && v != Some(o)
    requires forall rec :: rec in UsesOf(d.uses, o) ==> rec.user != d.self
    ensures ReplaceAt(d, i, v).ops == ReplaceAtAsWritten(d, i, v).ops
    ensures forall w: ValueId :: UsesOf(ReplaceAt(d, i, v).uses, w) == UsesOf(ReplaceAtAsWritten(d, i, v).uses, w)
  {
    var s := SetOperand(d, i, v);
    assert UsesOf(s.uses, o) == UsesOf(d.uses, o);
    WithoutAbsentUser(UsesOf(s.uses, o), d.self);
  }

  /** Replacing the only operand 1 of user 0 by 2: as written, value 1
      keeps the record of a use that no longer exists; corrected, it does
      not. */
  lemma StaleUseCounterexample()
    ensures var d := DU(0, [Some(1)], map[1 := [UseRec(0, 0)]]);
      NoStale(d) && !NoStale(ReplaceAtAsWritten(d, 0, Some(2))) && NoStale(ReplaceAt(d, 0, Some(2)))
  {
    var d := DU(0, [Some(1)], map[1 := [UseRec(0, 0)]]);
    var w := ReplaceAtAsWritten(d, 0, Some(2));
    assert w.ops == [Some(2)];
    assert Some(1) !in w.ops;
    assert UseRec(0, 0) in UsesOf(w.uses, 1);
  }
}
