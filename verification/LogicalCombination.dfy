/**
 Logical combinations of src/report.h: formulas over sub-expressions, stored as
 operators in post-order and evaluated bottom-up in a bit vector that holds the
 leaves first and one bit for each operator after them.
 */
module LogicalCombination {
  /** struct LogicalOp; operands are bit numbers. */
  datatype Op = Not(ro: nat) | And(lo: nat, ro: nat) | Or(lo: nat, ro: nat) {
    /** The left operand; NOT has only the right one. */
    function Left(): nat { if Not? then ro else lo }

    predicate Takes(x: nat) { x == Left() || x == ro }
  }

  /** lkeyCount leaves; operator `i` of the tree has bit number `leaves + i`. */
  datatype Engine = Engine(leaves: nat, ops: seq<Op>) {
    function Bits(): nat { leaves + |ops| }

    predicate IsOp(id: nat) { leaves <= id < Bits() }

    function OpAt(id: nat): Op
      requires IsOp(id)
    {
      ops[id - leaves]
    }

    /** The operators from `start` to `result` make use of leaves and of each other, earlier ones only. */
    predicate PostOrdered(start: nat, result: nat) {
      leaves <= start <= result < Bits() &&
      forall id: nat :: start <= id <= result ==> Sorted(start, id)
    }

    predicate Sorted(start: nat, id: nat)
      requires leaves <= start <= id < Bits()
    {
      Earlier(start, id, OpAt(id).Left()) && Earlier(start, id, OpAt(id).ro)
    }

    predicate Earlier(start: nat, id: nat, x: nat) { x < leaves || start <= x < id }

    /** The formula that a bit of the range stands for. */
    function FormulaOf(start: nat, result: nat, id: nat): Formula
      requires PostOrdered(start, result) && (id < leaves || start <= id <= result)
      decreases id
    {
      if id < leaves then Leaf(id)
      else
        assert Sorted(start, id);
        match OpAt(id)
        case Not(r) => Neg(FormulaOf(start, result, r))
        case And(l, r) => Both(FormulaOf(start, result, l), FormulaOf(start, result, r))
        case Or(l, r) => Either(FormulaOf(start, result, l), FormulaOf(start, result, r))
    }
  }

  datatype Formula = Leaf(k: nat) | Neg(f: Formula) | Both(a: Formula, b: Formula) | Either(a: Formula, b: Formula) {
    predicate Holds(on: set<nat>) {
      match this
      case Leaf(k) => k in on
      case Neg(f) => !f.Holds(on)
      case Both(a, b) => a.Holds(on) && b.Holds(on)
      case Either(a, b) => a.Holds(on) || b.Holds(on)
    }

    function Leaves(): set<nat> {
      match this
      case Leaf(k) => {k}
      case Neg(f) => f.Leaves()
      case Both(a, b) => a.Leaves() + b.Leaves()
      case Either(a, b) => a.Leaves() + b.Leaves()
    }
  }

  /** A formula only looks at its own leaves. */
  lemma {:induction false} HoldsByLeaves(f: Formula, on: set<nat>, other: set<nat>)
    requires forall k <- f.Leaves() :: k in on <==> k in other
    ensures f.Holds(on) <==> f.Holds(other)
  {
    match f {
      case Leaf(k) => assert k in f.Leaves();
      case Neg(g) => HoldsByLeaves(g, on, other);
      case Both(a, b) => HoldsByLeaves(a, on, other); HoldsByLeaves(b, on, other);
      case Either(a, b) => HoldsByLeaves(a, on, other); HoldsByLeaves(b, on, other);
    }
  }

  /** The leaves that are on in a bit vector. */
  ghost function OnLeaves(e: Engine, bits: seq<bool>): set<nat>
    requires |bits| == e.Bits()
  {
    set k: nat | k < e.leaves && bits[k]
  }

  /** The bits from `start` below `upto` are the values of their formulas. */
  ghost predicate Evaluated(e: Engine, bits: seq<bool>, start: nat, result: nat, upto: nat, on: set<nat>)
    requires e.PostOrdered(start, result) && |bits| == e.Bits() && upto <= result + 1
  {
    forall id: nat :: start <= id < upto ==> bits[id] == e.FormulaOf(start, result, id).Holds(on)
  }

  /** The value an operator computes from the bits below it. */
  function Value(op: Op, bits: seq<bool>): bool
    requires op.Left() < |bits| && op.ro < |bits|
  {
    match op
    case Not(r) => !bits[r]
    case And(l, r) => bits[l] && bits[r]
    case Or(l, r) => bits[l] || bits[r]
  }

  lemma {:induction false} ValueIsFormula(e: Engine, bits: seq<bool>, start: nat, result: nat, id: nat, on: set<nat>)
    requires e.PostOrdered(start, result) && |bits| == e.Bits() && start <= id <= result
    requires Evaluated(e, bits, start, result, id, on)
    requires forall k: nat :: e.OpAt(id).Takes(k) && k < e.leaves ==> (bits[k] <==> k in on)
    ensures e.Sorted(start, id)
    ensures Value(e.OpAt(id), bits) == e.FormulaOf(start, result, id).Holds(on)
  {
    assert e.Sorted(start, id);
    forall x: nat | e.OpAt(id).Takes(x) ensures bits[x] == e.FormulaOf(start, result, x).Holds(on) { }
  }

  /** The switch over the operator, which both loops share. */
  method Apply(e: Engine, lvec: array<bool>, id: nat)
    requires lvec.Length == e.Bits() && e.IsOp(id) && e.OpAt(id).Left() < lvec.Length && e.OpAt(id).ro < lvec.Length
    modifies lvec
    ensures lvec[..] == old(lvec[..])[id := Value(e.OpAt(id), old(lvec[..]))]
  {
    match e.OpAt(id) {
      case Not(ro) => lvec[id] := !lvec[ro];
      case And(lo, ro) => lvec[id] := lvec[lo] && lvec[ro];
      case Or(lo, ro) => lvec[id] := lvec[lo] || lvec[ro];
    }
  }

  /** isLogicalCombination: the bits of the operators before the call may hold anything. */
  method IsLogicalCombination(e: Engine, lvec: array<bool>, start: nat, result: nat) returns (r: bool)
    requires lvec.Length == e.Bits() && e.PostOrdered(start, result)
    modifies lvec
    ensures r == e.FormulaOf(start, result, result).Holds(OnLeaves(e, old(lvec[..])))
    ensures forall k :: 0 <= k < lvec.Length && !(start <= k <= result) ==> lvec[k] == old(lvec[k])
    ensures Evaluated(e, lvec[..], start, result, result + 1, OnLeaves(e, old(lvec[..])))
  {
    hide Engine.FormulaOf, Formula.Holds;
    ghost var on := OnLeaves(e, lvec[..]);
    for id := start to result + 1
      invariant forall k :: 0 <= k < lvec.Length && !(start <= k < id) ==> lvec[k] == old(lvec[k])
      invariant Evaluated(e, lvec[..], start, result, id, on)
    {
      ghost var bits := lvec[..];
      ValueIsFormula(e, bits, start, result, id, on);
      Apply(e, lvec, id);
    }
    return lvec[result];
  }

  /** The leaves that the operators of a range name. */
  ghost predicate UsesLeaf(e: Engine, start: nat, upto: nat, k: nat)
    requires e.leaves <= start && upto <= e.Bits()
  {
    k < e.leaves && exists id: nat :: start <= id < upto && e.OpAt(id).Takes(k)
  }

  ghost predicate NoneUsed(e: Engine, start: nat, upto: nat, on: set<nat>)
    requires e.leaves <= start && upto <= e.Bits()
  {
    forall k: nat :: UsesLeaf(e, start, upto, k) ==> k !in on
  }

  /** A leaf among the operands of `op` is on. */
  predicate LeafOn(e: Engine, op: Op, bits: seq<bool>)
    requires |bits| == e.Bits()
  {
    (op.Left() < e.leaves && bits[op.Left()]) || (op.ro < e.leaves && bits[op.ro])
  }

  lemma UsedSoFar(e: Engine, bits: seq<bool>, start: nat, result: nat, id: nat)
    requires e.PostOrdered(start, result) && start <= id <= result && |bits| == e.Bits()
    ensures NoneUsed(e, start, id + 1, OnLeaves(e, bits)) <==>
            NoneUsed(e, start, id, OnLeaves(e, bits)) && !LeafOn(e, e.OpAt(id), bits)
  {
    var on := OnLeaves(e, bits);
    if LeafOn(e, e.OpAt(id), bits) {
      var op := e.OpAt(id);
      var x := if op.Left() < e.leaves && bits[op.Left()] then op.Left() else op.ro;
      assert op.Takes(x);
      assert UsesLeaf(e, start, id + 1, x) && x in on;
    }
    if NoneUsed(e, start, id + 1, on) {
      forall k: nat | UsesLeaf(e, start, id, k) ensures k !in on {
        assert UsesLeaf(e, start, id + 1, k);
      }
    }
  }

  lemma UsedLater(e: Engine, start: nat, id: nat, result: nat, on: set<nat>)
    requires e.leaves <= start && id <= result < e.Bits() && NoneUsed(e, start, result + 1, on)
    ensures NoneUsed(e, start, id, on)
  {
    forall k: nat | UsesLeaf(e, start, id, k) ensures k !in on {
      assert UsesLeaf(e, start, result + 1, k);
    }
  }

  /** isPurelyNegativeMatch: whether the formula holds with nothing on, provided none of the leaves it names is. */
  method IsPurelyNegativeMatch(e: Engine, lvec: array<bool>, start: nat, result: nat) returns (r: bool)
    requires lvec.Length == e.Bits() && e.PostOrdered(start, result)
    modifies lvec
    ensures r <==> NoneUsed(e, start, result + 1, OnLeaves(e, old(lvec[..]))) &&
                   e.FormulaOf(start, result, result).Holds({})
    ensures forall k :: 0 <= k < lvec.Length && !(start <= k <= result) ==> lvec[k] == old(lvec[k])
  {
    hide Engine.FormulaOf, Formula.Holds, NoneUsed;
    ghost var on := OnLeaves(e, lvec[..]);
    assert NoneUsed(e, start, start, on) by { NoOperators(e, start, on); }
    for id := start to result + 1
      invariant forall k :: 0 <= k < lvec.Length && !(start <= k < id) ==> lvec[k] == old(lvec[k])
      invariant NoneUsed(e, start, id, on)
      invariant Evaluated(e, lvec[..], start, result, id, {})
    {
      ghost var bits := lvec[..];
      assert OnLeaves(e, bits) == on;
      assert e.Sorted(start, id);
      UsedSoFar(e, bits, start, result, id);
      var isOn := false;
      match e.OpAt(id) {
        case Not(ro) => isOn := ro < e.leaves && lvec[ro];
        case And(lo, ro) => isOn := (lo < e.leaves && lvec[lo]) || (ro < e.leaves && lvec[ro]);
        case Or(lo, ro) => isOn := (lo < e.leaves && lvec[lo]) || (ro < e.leaves && lvec[ro]);
      }
      assert isOn == LeafOn(e, e.OpAt(id), bits);
      if isOn {
        assert !NoneUsed(e, start, result + 1, on) by {
          if NoneUsed(e, start, result + 1, on) {
            UsedLater(e, start, id + 1, result, on);
          }
        }
        return false;
      }
      ValueIsFormula(e, bits, start, result, id, {});
      Apply(e, lvec, id);
    }
    return lvec[result];
  }

  lemma NoOperators(e: Engine, start: nat, on: set<nat>)
    requires e.leaves <= start <= e.Bits()
    ensures NoneUsed(e, start, start, on)
  {
  }

  // ----- the leaves named are the formula's own

  /** Every operator of the range but the last is an operand of a later one. */
  ghost predicate Connected(e: Engine, start: nat, result: nat)
    requires e.PostOrdered(start, result)
  {
    forall id: nat :: start <= id < result ==> HasUser(e, id, result)
  }

  ghost predicate HasUser(e: Engine, id: nat, result: nat)
    requires e.leaves <= id <= result < e.Bits()
  {
    exists user: nat :: id < user <= result && e.OpAt(user).Takes(id)
  }

  lemma OperandLeaves(e: Engine, start: nat, result: nat, id: nat, x: nat)
    requires e.PostOrdered(start, result) && start <= id <= result && e.OpAt(id).Takes(x)
    ensures e.Sorted(start, id)
    ensures e.FormulaOf(start, result, x).Leaves() <= e.FormulaOf(start, result, id).Leaves()
  {
    assert e.Sorted(start, id);
  }

  lemma {:induction false} SubformulaLeaves(e: Engine, start: nat, result: nat, id: nat)
    requires e.PostOrdered(start, result) && Connected(e, start, result) && start <= id <= result
    ensures e.FormulaOf(start, result, id).Leaves() <= e.FormulaOf(start, result, result).Leaves()
    decreases result - id
  {
    if id < result {
      assert HasUser(e, id, result);
      var user: nat :| id < user <= result && e.OpAt(user).Takes(id);
      OperandLeaves(e, start, result, user, id);
      SubformulaLeaves(e, start, result, user);
    }
  }

  lemma {:induction false} LeavesAreUsed(e: Engine, start: nat, result: nat, id: nat, k: nat)
    requires e.PostOrdered(start, result) && start <= id <= result
    requires k in e.FormulaOf(start, result, id).Leaves()
    ensures UsesLeaf(e, start, result + 1, k)
    decreases id
  {
    assert e.Sorted(start, id);
    var op := e.OpAt(id);
    var x := if k in e.FormulaOf(start, result, op.Left()).Leaves() then op.Left() else op.ro;
    assert op.Takes(x);
    if x >= e.leaves {
      LeavesAreUsed(e, start, result, x, k);
    } else {
      assert x == k;
    }
  }

  /** So for a connected range the answer is about the formula alone. */
  lemma {:induction false} UsedLeavesAreFormulaLeaves(e: Engine, start: nat, result: nat, k: nat)
    requires e.PostOrdered(start, result) && Connected(e, start, result)
    ensures UsesLeaf(e, start, result + 1, k) <==> k in e.FormulaOf(start, result, result).Leaves()
  {
    if UsesLeaf(e, start, result + 1, k) {
      var id: nat :| start <= id < result + 1 && e.OpAt(id).Takes(k);
      OperandLeaves(e, start, result, id, k);
      SubformulaLeaves(e, start, result, id);
    }
    if k in e.FormulaOf(start, result, result).Leaves() {
      LeavesAreUsed(e, start, result, result, k);
    }
  }

  /**
   A purely negative match is a match: with none of the formula's leaves on, the
   formula has the value it has with everything off.
   */
  lemma PurelyNegativeIsMatch(e: Engine, start: nat, result: nat, on: set<nat>)
    requires e.PostOrdered(start, result) && NoneUsed(e, start, result + 1, on)
    ensures e.FormulaOf(start, result, result).Holds(on) == e.FormulaOf(start, result, result).Holds({})
  {
    var f := e.FormulaOf(start, result, result);
    forall k <- f.Leaves() ensures k !in on {
      LeavesAreUsed(e, start, result, result, k);
    }
    HoldsByLeaves(f, on, {});
  }
}
