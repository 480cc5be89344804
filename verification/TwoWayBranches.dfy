/** What the pointer, zero, floating-point and invoke heuristics recognize, and what their verdicts predict of the operands. */
module TwoWayBranches {
  import opened Arith
  import opened Wrappers

  datatype IntPredicate = IntEQ | IntNE | SLT | SGT | SLE | SGE | ULT | UGT | ULE | UGE

  /** A floating-point predicate by the outcomes at which it holds, which are the bits of its code. */
  datatype FloatPredicate = FloatPredicate(unordered: bool, less: bool, greater: bool, equal: bool)

  datatype Outcome = Unordered | Less | Greater | Equal

  const FCMP_OEQ := FloatPredicate(false, false, false, true)
  const FCMP_ONE := FloatPredicate(false, true, true, false)
  const FCMP_UEQ := FloatPredicate(true, false, false, true)
  const FCMP_UNE := FloatPredicate(true, true, true, false)
  const FCMP_ORD := FloatPredicate(false, true, true, true)
  const FCMP_UNO := FloatPredicate(true, false, false, false)
  const FCMP_UGE := FloatPredicate(true, false, true, true)
  const FCMP_ULE := FloatPredicate(true, true, false, true)
  const FCMP_TRUE := FloatPredicate(true, true, true, true)

  /** Conditions of a branch: a constant operand, and a constant the left operand is masked with, as unsigned values. */
  datatype Condition =
    | PointerCompare(cmp: IntPredicate)
    | IntCompare(cmp: IntPredicate, width: nat, mask: Option<nat>, rhs: Option<nat>)
    | FloatCompare(fcmp: FloatPredicate)
    | OtherCondition

  datatype End = CondBranch(cond: Condition) | InvokeEnd | OtherEnd

  /** What was recognized; isProb says that the first edge is the likely one. */
  datatype TwoWay = Pointer(isProb: bool) | Zero(isProb: bool) | FloatingPoint(isProb: bool) | Invoke

  predicate IsPowerOf2(m: nat) {
    m > 0 && BitAnd(m, m - 1) == 0
  }

  /** isTrueWhenEqual: it lists only predicates that hold for unordered operands too. */
  predicate IsTrueWhenEqual(p: FloatPredicate) {
    p == FCMP_TRUE || p == FCMP_UEQ || p == FCMP_UGE || p == FCMP_ULE
  }

  predicate IsEquality(p: FloatPredicate) {
    p == FCMP_OEQ || p == FCMP_ONE || p == FCMP_UEQ || p == FCMP_UNE
  }

  // ----- The verdicts -----

  function PointerVerdict(c: Condition): Option<bool> {
    if c.PointerCompare? && (c.cmp == IntEQ || c.cmp == IntNE) then Some(c.cmp == IntNE) else None
  }

  /** The verdict on a comparison of an integer of w bits with a constant. */
  function ConstantVerdict(p: IntPredicate, c: nat, w: nat): Option<bool> {
    if c == 0 then
      match p
      case IntEQ => Some(false)
      case IntNE => Some(true)
      case SLT => Some(false)
      case SGT => Some(true)
      case _ => None
    else if c == 1 && p == SLT then Some(false)
    else if c == Pow2(w) - 1 then
      match p
      case IntEQ => Some(false)
      case IntNE => Some(true)
      case SGT => Some(true)
      case _ => None
    else None
  }

  function ZeroVerdict(c: Condition): Option<bool> {
    if c.IntCompare? && c.rhs.Some? && !(c.mask.Some? && IsPowerOf2(c.mask.value)) then ConstantVerdict(c.cmp, c.rhs.value, c.width)
    else None
  }

  function FloatVerdict(c: Condition): Option<bool> {
    if !c.FloatCompare? then None
    else if IsEquality(c.fcmp) then Some(!IsTrueWhenEqual(c.fcmp))
    else if c.fcmp == FCMP_ORD then Some(true)
    else if c.fcmp == FCMP_UNO then Some(false)
    else None
  }

  /** The four heuristics in turn. */
  function Recognized(end: End): Option<TwoWay> {
    match end
    case CondBranch(c) =>
      if PointerVerdict(c).Some? then Some(Pointer(PointerVerdict(c).value))
      else if ZeroVerdict(c).Some? then Some(Zero(ZeroVerdict(c).value))
      else if FloatVerdict(c).Some? then Some(FloatingPoint(FloatVerdict(c).value))
      else None
    case InvokeEnd => Some(Invoke)
    case OtherEnd => None
  }

  // ----- What they predict -----

  /** Whether the comparison holds of an unsigned value x of w bits. */
  predicate IntHolds(p: IntPredicate, x: nat, c: nat, w: nat)
    requires w >= 1
  {
    match p
    case IntEQ => x == c
    case IntNE => x != c
    case SLT => Signed(x, w) < Signed(c, w)
    case SGT => Signed(x, w) > Signed(c, w)
    case SLE => Signed(x, w) <= Signed(c, w)
    case SGE => Signed(x, w) >= Signed(c, w)
    case ULT => x < c
    case UGT => x > c
    case ULE => x <= c
    case UGE => x >= c
  }

  predicate FloatHolds(p: FloatPredicate, o: Outcome) {
    match o
    case Unordered => p.unordered
    case Less => p.less
    case Greater => p.greater
    case Equal => p.equal
  }

  /** Every verdict at this width is what the comparison says of x. */
  ghost predicate Predicts(x: nat, w: nat)
    requires w >= 1
  {
    forall p: IntPredicate, c: nat {:trigger ConstantVerdict(p, c, w)}
      | c < Pow2(w) && ConstantVerdict(p, c, w).Some? :: ConstantVerdict(p, c, w).value == IntHolds(p, x, c, w)
  }

  lemma SignedConstants(w: nat)
    requires w >= 2
    ensures Pow2(w) >= 4 && Signed(0, w) == 0 && Signed(1, w) == 1 && Signed(Pow2(w) - 1, w) == -1
  {
    Pow2Monotone(2, w);
    assert Pow2(2) == 4 && Pow2(w) == 2 * Pow2(w - 1);
    ModSmall(0, Pow2(w));
    ModSmall(1, Pow2(w));
    ModSmall(Pow2(w) - 1, Pow2(w));
  }

  /** The comparisons with a verdict: with 0 and -1 for equality and greater, with 0 and 1 for less. */
  lemma VerdictWhich(p: IntPredicate, c: nat, w: nat)
    requires w >= 2 && c < Pow2(w)
    ensures ConstantVerdict(p, c, w).Some? <==>
              match p
              case IntEQ => -1 <= Signed(c, w) <= 0
              case IntNE => -1 <= Signed(c, w) <= 0
              case SGT => -1 <= Signed(c, w) <= 0
              case SLT => 0 <= Signed(c, w) <= 1
              case _ => false
  {
    SignedConstants(w);
    ModSmall(c, Pow2(w));
  }

  /** A floating-point comparison has a verdict exactly if it does not tell less from greater and is neither always true nor never. */
  lemma FloatVerdictWhich(p: FloatPredicate)
    ensures FloatVerdict(FloatCompare(p)).Some? <==>
              p.less == p.greater && (exists o: Outcome :: FloatHolds(p, o)) && (exists o: Outcome :: !FloatHolds(p, o))
  {
    assert FloatHolds(p, Unordered) == p.unordered && FloatHolds(p, Less) == p.less && FloatHolds(p, Equal) == p.equal;
    assert FloatHolds(p, Greater) == p.greater;
  }

  /** The zero heuristic predicts that the operand is positive: the verdict is what the comparison says of every positive value. */
  lemma PredictsPositive(x: nat, w: nat)
    requires w >= 2 && x < Pow2(w) && Signed(x, w) > 0
    ensures Predicts(x, w)
  {
    SignedConstants(w);
    ModSmall(x, Pow2(w));
  }

  /** With two bits or more its verdicts fit together; a single bit has no value that they all say the truth of. */
  lemma ZeroVerdictsFit(w: nat)
    requires w >= 1
    ensures (exists x: nat :: x < Pow2(w) && Predicts(x, w)) <==> w >= 2
  {
    if w >= 2 {
      SignedConstants(w);
      PredictsPositive(1, w);
    } else {
      assert Pow2(1) == 2;
      forall x: nat | x < 2 ensures !Predicts(x, w) {
        assert ConstantVerdict(IntEQ, x, w) == Some(false) && IntHolds(IntEQ, x, x, w);
      }
    }
  }

  /** So comparisons with the same meaning get the same verdict, and opposite ones opposite verdicts. */
  lemma SameMeaningSameVerdict(p: IntPredicate, c: nat, q: IntPredicate, d: nat, w: nat)
    requires w >= 2 && c < Pow2(w) && d < Pow2(w) && ConstantVerdict(p, c, w).Some? && ConstantVerdict(q, d, w).Some?
    ensures (forall x: nat | x < Pow2(w) :: IntHolds(p, x, c, w) == IntHolds(q, x, d, w)) ==> ConstantVerdict(p, c, w) == ConstantVerdict(q, d, w)
    ensures (forall x: nat | x < Pow2(w) :: IntHolds(p, x, c, w) != IntHolds(q, x, d, w)) ==> ConstantVerdict(p, c, w) != ConstantVerdict(q, d, w)
  {
    SignedConstants(w);
    PredictsPositive(1, w);
  }

  /**
   The floating-point heuristic is documented to predict operands that are ordered and differ.
   Its verdict does so exactly for the predicates other than ordered equality.
   */
  lemma FloatVerdictExact(p: FloatPredicate)
    requires FloatVerdict(FloatCompare(p)).Some?
    ensures FloatVerdict(FloatCompare(p)).value == FloatHolds(p, Less) == FloatHolds(p, Greater) <==> p != FCMP_OEQ
  {
  }

  /** Ordered equality is said to be likely, and so is its negation. */
  lemma OrderedEqualLikely()
    ensures FloatVerdict(FloatCompare(FCMP_OEQ)) == FloatVerdict(FloatCompare(FCMP_UNE)) == Some(true)
    ensures forall o: Outcome :: FloatHolds(FCMP_OEQ, o) != FloatHolds(FCMP_UNE, o)
  {
  }
}
