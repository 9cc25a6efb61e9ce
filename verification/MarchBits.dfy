/**
 The march test as one or two bits see it: a memory of one victim bit and, for a coupling
 fault, one aggressor bit, and the verdict of the test on every fault such a memory can have.
 */
module MarchBits {
  import opened Wrappers

  /** What a coupled cell suffers when its aggressor makes the sensitising transition. */
  datatype Effect = Invert | Force(value: bool)

  datatype BitFault = BitStuck(value: bool) | BitNoTransition(rising: bool) | BitCoupling(rising: bool, effect: Effect)
  datatype Bits = Bits(agg: bool, vic: bool)
  datatype BitStep = BitStep(onVictim: bool, check: Option<bool>, write: Option<bool>)

  /** Where the aggressor's word stands relative to the victim's. */
  datatype Order = Alone | AggressorFirst | VictimFirst

  function AffectBit(v: bool, effect: Effect): bool {
    match effect
    case Invert => !v
    case Force(x) => x
  }

  function BitStore(bf: BitFault, b: Bits, onVictim: bool, w: bool): Bits {
    if onVictim then
      match bf
      case BitStuck(v) => b.(vic := v)
      case BitNoTransition(rising) => b.(vic := if b.vic != rising && w == rising then !rising else w)
      case BitCoupling(_, _) => b.(vic := w)
    else if bf.BitCoupling? && b.agg != bf.rising && w == bf.rising then
      Bits(w, AffectBit(b.vic, bf.effect))
    else b.(agg := w)
  }

  function BitVisit(bf: BitFault, b: Bits, s: BitStep): Option<Bits> {
    if s.check.Some? && s.check.value != (if s.onVictim then b.vic else b.agg) then None
    else Some(if s.write.Some? then BitStore(bf, b, s.onVictim, s.write.value) else b)
  }

  function BitRun(bf: BitFault, b: Bits, steps: seq<BitStep>): Option<Bits>
    decreases |steps|
  {
    if steps == [] then Some(b) else
    var r := BitVisit(bf, b, steps[0]);
    if r.Some? then BitRun(bf, r.value, steps[1..]) else None
  }

  lemma {:induction false} BitRunAppend(bf: BitFault, b: Bits, s: seq<BitStep>, t: seq<BitStep>)
    ensures BitRun(bf, b, s + t) == (var r := BitRun(bf, b, s); if r.Some? then BitRun(bf, r.value, t) else None)
    decreases |s|
  {
    if s == [] {
      assert s + t == t;
    } else {
      assert (s + t)[1..] == s[1..] + t;
      var r := BitVisit(bf, b, s[0]);
      if r.Some? {
        BitRunAppend(bf, r.value, s[1..], t);
      }
    }
  }

  // ---------- the march on the projected bits ----------

  function BitCheck(phase: nat, p: bool): Option<bool> {
    match phase
    case 1 => Some(false)
    case 2 => Some(true)
    case 3 => Some(p)
    case 4 => Some(!p)
    case 5 => Some(false)
    case _ => None
  }

  function BitWrite(phase: nat, p: bool): Option<bool> {
    match phase
    case 0 => Some(false)
    case 1 => Some(true)
    case 2 => Some(p)
    case 3 => Some(!p)
    case 4 => Some(false)
    case _ => None
  }

  function BitStepAt(phase: nat, onVictim: bool, p: bool): BitStep {
    BitStep(onVictim, BitCheck(phase, p), BitWrite(phase, p))
  }

  predicate AggressorLeads(order: Order, phase: nat) {
    order == if phase == 3 || phase == 4 then VictimFirst else AggressorFirst
  }

  function BitPass(order: Order, phase: nat, pa: bool, pv: bool): seq<BitStep> {
    if order.Alone? then [BitStepAt(phase, true, pv)]
    else if AggressorLeads(order, phase) then [BitStepAt(phase, false, pa), BitStepAt(phase, true, pv)]
    else [BitStepAt(phase, true, pv), BitStepAt(phase, false, pa)]
  }

  /** The bit pass as one expression. */
  function BitPhase(bf: BitFault, b: Bits, order: Order, phase: nat, pa: bool, pv: bool): Option<Bits> {
    if order.Alone? then BitVisit(bf, b, BitStepAt(phase, true, pv))
    else
      var lead := AggressorLeads(order, phase);
      var r := BitVisit(bf, b, BitStepAt(phase, !lead, if lead then pa else pv));
      if r.Some? then BitVisit(bf, r.value, BitStepAt(phase, lead, if lead then pv else pa)) else None
  }

  lemma BitPhaseIsPass(bf: BitFault, b: Bits, order: Order, phase: nat, pa: bool, pv: bool)
    ensures BitRun(bf, b, BitPass(order, phase, pa, pv)) == BitPhase(bf, b, order, phase, pa, pv)
  {
    var s := BitPass(order, phase, pa, pv);
    var r := BitVisit(bf, b, s[0]);
    if r.Some? && |s| == 2 {
      assert s[1..] == [s[1]] && s[1..][1..] == [];
      assert BitRun(bf, r.value, s[1..]) == BitVisit(bf, r.value, s[1]);
    } else {
      assert |s| == 1 ==> s[1..] == [];
    }
  }

  function BitMarch(bf: BitFault, b: Bits, order: Order, phase: nat, pa: bool, pv: bool): bool
    decreases 6 - phase
  {
    phase >= 6 ||
    var r := BitPhase(bf, b, order, phase, pa, pv);
    r.Some? && BitMarch(bf, r.value, order, phase + 1, pa, pv)
  }

  // ---------- verdicts ----------

  lemma BitMarchStep(bf: BitFault, b: Bits, order: Order, phase: nat, pa: bool, pv: bool)
    requires phase < 6
    ensures BitMarch(bf, b, order, phase, pa, pv)
         == (var r := BitPhase(bf, b, order, phase, pa, pv); r.Some? && BitMarch(bf, r.value, order, phase + 1, pa, pv))
    ensures BitMarch(bf, b, order, 6, pa, pv)
  {
    hide BitPhase;
  }

  lemma BitCellFaultsFail(bf: BitFault, b: Bits, p: bool)
    requires !bf.BitCoupling?
    ensures !BitMarch(bf, b, Alone, 0, false, p)
  {
  }

  lemma FlipRisingFirstPhases(b: Bits, pa: bool, pv: bool)
    ensures BitPhase(BitCoupling(true, Invert), b, AggressorFirst, 0, pa, pv) == Some(Bits(false, false))
    ensures BitPhase(BitCoupling(true, Invert), Bits(false, false), AggressorFirst, 1, pa, pv) == None
  {
  }

  lemma BitFlipRisingFirst(b: Bits, pa: bool, pv: bool)
    ensures !BitMarch(BitCoupling(true, Invert), b, AggressorFirst, 0, pa, pv)
  {
    hide BitPhase, BitMarch;
    FlipRisingFirstPhases(b, pa, pv);
    var f := BitCoupling(true, Invert);
    BitMarchStep(f, b, AggressorFirst, 0, pa, pv);
    BitMarchStep(f, Bits(false, false), AggressorFirst, 1, pa, pv);
  }

  lemma FlipRisingLastPhases(b: Bits, pa: bool, pv: bool)
    ensures BitPhase(BitCoupling(true, Invert), b, VictimFirst, 0, pa, pv) == Some(Bits(false, false))
    ensures BitPhase(BitCoupling(true, Invert), Bits(false, false), VictimFirst, 1, pa, pv) == Some(Bits(true, false))
    ensures BitPhase(BitCoupling(true, Invert), Bits(true, false), VictimFirst, 2, pa, pv) == None
  {
  }

  lemma BitFlipRisingLast(b: Bits, pa: bool, pv: bool)
    ensures !BitMarch(BitCoupling(true, Invert), b, VictimFirst, 0, pa, pv)
  {
    hide BitPhase, BitMarch;
    FlipRisingLastPhases(b, pa, pv);
    var f := BitCoupling(true, Invert);
    BitMarchStep(f, b, VictimFirst, 0, pa, pv);
    BitMarchStep(f, Bits(false, false), VictimFirst, 1, pa, pv);
    BitMarchStep(f, Bits(true, false), VictimFirst, 2, pa, pv);
  }

  lemma FlipFallingFirstPhases(b: Bits, pa: bool, pv: bool)
    ensures BitPhase(BitCoupling(false, Invert), b, AggressorFirst, 0, pa, pv) == Some(Bits(false, false))
    ensures BitPhase(BitCoupling(false, Invert), Bits(false, false), AggressorFirst, 1, pa, pv) == Some(Bits(true, true))
    ensures BitPhase(BitCoupling(false, Invert), Bits(true, true), AggressorFirst, 2, pa, pv) == if pa then Some(Bits(true, pv)) else None
    ensures pa ==> BitPhase(BitCoupling(false, Invert), Bits(true, pv), AggressorFirst, 3, pa, pv) == Some(Bits(false, pv))
    ensures pa ==> BitPhase(BitCoupling(false, Invert), Bits(false, pv), AggressorFirst, 4, pa, pv) == None
  {
  }

  lemma BitFlipFallingFirst(b: Bits, pa: bool, pv: bool)
    ensures !BitMarch(BitCoupling(false, Invert), b, AggressorFirst, 0, pa, pv)
  {
    hide BitPhase, BitMarch;
    FlipFallingFirstPhases(b, pa, pv);
    var f := BitCoupling(false, Invert);
    BitMarchStep(f, b, AggressorFirst, 0, pa, pv);
    BitMarchStep(f, Bits(false, false), AggressorFirst, 1, pa, pv);
    BitMarchStep(f, Bits(true, true), AggressorFirst, 2, pa, pv);
    BitMarchStep(f, Bits(true, pv), AggressorFirst, 3, pa, pv);
    BitMarchStep(f, Bits(false, pv), AggressorFirst, 4, pa, pv);
  }

  lemma FlipFallingLastPhases(b: Bits, pa: bool, pv: bool)
    ensures BitPhase(BitCoupling(false, Invert), b, VictimFirst, 0, pa, pv) == Some(Bits(false, b.agg))
    ensures BitPhase(BitCoupling(false, Invert), Bits(false, b.agg), VictimFirst, 1, pa, pv) == if b.agg then None else Some(Bits(true, true))
    ensures BitPhase(BitCoupling(false, Invert), Bits(true, true), VictimFirst, 2, pa, pv) == Some(Bits(pa, pa == pv))
    ensures BitPhase(BitCoupling(false, Invert), Bits(pa, pa == pv), VictimFirst, 3, pa, pv) == None
  {
  }

  lemma BitFlipFallingLast(b: Bits, pa: bool, pv: bool)
    ensures !BitMarch(BitCoupling(false, Invert), b, VictimFirst, 0, pa, pv)
  {
    hide BitPhase, BitMarch;
    FlipFallingLastPhases(b, pa, pv);
    var f := BitCoupling(false, Invert);
    BitMarchStep(f, b, VictimFirst, 0, pa, pv);
    BitMarchStep(f, Bits(false, b.agg), VictimFirst, 1, pa, pv);
    BitMarchStep(f, Bits(true, true), VictimFirst, 2, pa, pv);
    BitMarchStep(f, Bits(pa, pa == pv), VictimFirst, 3, pa, pv);
  }

  /** When a coupled bit forced to `value` escapes the test. */
  predicate ForceEscapes(rising: bool, value: bool, order: Order, a0: bool, pa: bool, pv: bool) {
    if rising then
      value == order.VictimFirst? && (pa || pv)
    else
      pa && pv == (value == order.VictimFirst?) && !(order.VictimFirst? && value && a0)
  }

  lemma RisingFirstPhases(value: bool, b: Bits, pa: bool, pv: bool)
    ensures BitPhase(BitCoupling(true, Force(value)), b, AggressorFirst, 0, pa, pv) == Some(Bits(false, false))
    ensures BitPhase(BitCoupling(true, Force(value)), Bits(false, false), AggressorFirst, 1, pa, pv) == if value then None else Some(Bits(true, true))
    ensures !value ==> BitPhase(BitCoupling(true, Force(value)), Bits(true, true), AggressorFirst, 2, pa, pv) == Some(Bits(pa, pv))
    ensures !value ==> BitPhase(BitCoupling(true, Force(value)), Bits(pa, pv), AggressorFirst, 3, pa, pv) == Some(Bits(!pa, pa && !pv))
    ensures !value ==> BitPhase(BitCoupling(true, Force(value)), Bits(!pa, pa && !pv), AggressorFirst, 4, pa, pv) == if pa || pv then Some(Bits(false, false)) else None
    ensures !value ==> BitPhase(BitCoupling(true, Force(value)), Bits(false, false), AggressorFirst, 5, pa, pv) == Some(Bits(false, false))
  {
  }

  lemma BitRisingFirst(value: bool, b: Bits, pa: bool, pv: bool)
    ensures BitMarch(BitCoupling(true, Force(value)), b, AggressorFirst, 0, pa, pv)
       <==> ForceEscapes(true, value, AggressorFirst, b.agg, pa, pv)
  {
    hide BitPhase, BitMarch;
    RisingFirstPhases(value, b, pa, pv);
    var f := BitCoupling(true, Force(value));
    BitMarchStep(f, b, AggressorFirst, 0, pa, pv);
    BitMarchStep(f, Bits(false, false), AggressorFirst, 1, pa, pv);
    BitMarchStep(f, Bits(true, true), AggressorFirst, 2, pa, pv);
    BitMarchStep(f, Bits(pa, pv), AggressorFirst, 3, pa, pv);
    BitMarchStep(f, Bits(!pa, pa && !pv), AggressorFirst, 4, pa, pv);
    BitMarchStep(f, Bits(false, false), AggressorFirst, 5, pa, pv);
  }

  lemma RisingLastPhases(value: bool, b: Bits, pa: bool, pv: bool)
    ensures BitPhase(BitCoupling(true, Force(value)), b, VictimFirst, 0, pa, pv) == Some(Bits(false, false))
    ensures BitPhase(BitCoupling(true, Force(value)), Bits(false, false), VictimFirst, 1, pa, pv) == Some(Bits(true, value))
    ensures BitPhase(BitCoupling(true, Force(value)), Bits(true, value), VictimFirst, 2, pa, pv) == if value then Some(Bits(pa, pv)) else None
    ensures value ==> BitPhase(BitCoupling(true, Force(value)), Bits(pa, pv), VictimFirst, 3, pa, pv) == if pa || pv then Some(Bits(!pa, !pv)) else None
    ensures value && (pa || pv) ==> BitPhase(BitCoupling(true, Force(value)), Bits(!pa, !pv), VictimFirst, 4, pa, pv) == Some(Bits(false, false))
    ensures value && (pa || pv) ==> BitPhase(BitCoupling(true, Force(value)), Bits(false, false), VictimFirst, 5, pa, pv) == Some(Bits(false, false))
  {
  }

  lemma BitRisingLast(value: bool, b: Bits, pa: bool, pv: bool)
    ensures BitMarch(BitCoupling(true, Force(value)), b, VictimFirst, 0, pa, pv)
       <==> ForceEscapes(true, value, VictimFirst, b.agg, pa, pv)
  {
    hide BitPhase, BitMarch;
    RisingLastPhases(value, b, pa, pv);
    var f := BitCoupling(true, Force(value));
    BitMarchStep(f, b, VictimFirst, 0, pa, pv);
    BitMarchStep(f, Bits(false, false), VictimFirst, 1, pa, pv);
    BitMarchStep(f, Bits(true, value), VictimFirst, 2, pa, pv);
    BitMarchStep(f, Bits(pa, pv), VictimFirst, 3, pa, pv);
    BitMarchStep(f, Bits(!pa, !pv), VictimFirst, 4, pa, pv);
    BitMarchStep(f, Bits(false, false), VictimFirst, 5, pa, pv);
  }

  lemma FallingFirstPhases(value: bool, b: Bits, pa: bool, pv: bool)
    ensures BitPhase(BitCoupling(false, Force(value)), b, AggressorFirst, 0, pa, pv) == Some(Bits(false, false))
    ensures BitPhase(BitCoupling(false, Force(value)), Bits(false, false), AggressorFirst, 1, pa, pv) == Some(Bits(true, true))
    ensures BitPhase(BitCoupling(false, Force(value)), Bits(true, true), AggressorFirst, 2, pa, pv) == if pa || value then Some(Bits(pa, pv)) else None
    ensures pa || value ==> BitPhase(BitCoupling(false, Force(value)), Bits(pa, pv), AggressorFirst, 3, pa, pv) == Some(Bits(!pa, if pa then value else !pv))
    ensures pa || value ==> BitPhase(BitCoupling(false, Force(value)), Bits(!pa, if pa then value else !pv), AggressorFirst, 4, pa, pv) == if pa && value == pv then None else Some(Bits(false, !pa && value))
    ensures (pa || value) && !(pa && value == pv) ==> BitPhase(BitCoupling(false, Force(value)), Bits(false, !pa && value), AggressorFirst, 5, pa, pv) == if !pa && value then None else Some(Bits(false, false))
  {
  }

  lemma BitFallingFirst(value: bool, b: Bits, pa: bool, pv: bool)
    ensures BitMarch(BitCoupling(false, Force(value)), b, AggressorFirst, 0, pa, pv)
       <==> ForceEscapes(false, value, AggressorFirst, b.agg, pa, pv)
  {
    hide BitPhase, BitMarch;
    FallingFirstPhases(value, b, pa, pv);
    var f := BitCoupling(false, Force(value));
    BitMarchStep(f, b, AggressorFirst, 0, pa, pv);
    BitMarchStep(f, Bits(false, false), AggressorFirst, 1, pa, pv);
    BitMarchStep(f, Bits(true, true), AggressorFirst, 2, pa, pv);
    BitMarchStep(f, Bits(pa, pv), AggressorFirst, 3, pa, pv);
    BitMarchStep(f, Bits(!pa, if pa then value else !pv), AggressorFirst, 4, pa, pv);
    BitMarchStep(f, Bits(false, !pa && value), AggressorFirst, 5, pa, pv);
  }

  lemma FallingLastPhases(value: bool, b: Bits, pa: bool, pv: bool)
    ensures BitPhase(BitCoupling(false, Force(value)), b, VictimFirst, 0, pa, pv) == Some(Bits(false, b.agg && value))
    ensures BitPhase(BitCoupling(false, Force(value)), Bits(false, b.agg && value), VictimFirst, 1, pa, pv) == if b.agg && value then None else Some(Bits(true, true))
    ensures !(b.agg && value) ==> BitPhase(BitCoupling(false, Force(value)), Bits(true, true), VictimFirst, 2, pa, pv) == Some(Bits(pa, if pa then pv else value))
    ensures !(b.agg && value) ==> BitPhase(BitCoupling(false, Force(value)), Bits(pa, if pa then pv else value), VictimFirst, 3, pa, pv) == if value == pv then Some(Bits(!pa, !pv)) else None
    ensures !(b.agg && value) && value == pv ==> BitPhase(BitCoupling(false, Force(value)), Bits(!pa, !pv), VictimFirst, 4, pa, pv) == if pa then Some(Bits(false, false)) else None
    ensures !(b.agg && value) && value == pv ==> BitPhase(BitCoupling(false, Force(value)), Bits(false, false), VictimFirst, 5, pa, pv) == Some(Bits(false, false))
  {
  }

  lemma BitFallingLast(value: bool, b: Bits, pa: bool, pv: bool)
    ensures BitMarch(BitCoupling(false, Force(value)), b, VictimFirst, 0, pa, pv)
       <==> ForceEscapes(false, value, VictimFirst, b.agg, pa, pv)
  {
    hide BitPhase, BitMarch;
    FallingLastPhases(value, b, pa, pv);
    var f := BitCoupling(false, Force(value));
    BitMarchStep(f, b, VictimFirst, 0, pa, pv);
    BitMarchStep(f, Bits(false, b.agg && value), VictimFirst, 1, pa, pv);
    BitMarchStep(f, Bits(true, true), VictimFirst, 2, pa, pv);
    BitMarchStep(f, Bits(pa, if pa then pv else value), VictimFirst, 3, pa, pv);
    BitMarchStep(f, Bits(!pa, !pv), VictimFirst, 4, pa, pv);
    BitMarchStep(f, Bits(false, false), VictimFirst, 5, pa, pv);
  }

  lemma BitInversionFails(rising: bool, b: Bits, order: Order, pa: bool, pv: bool)
    requires !order.Alone?
    ensures !BitMarch(BitCoupling(rising, Invert), b, order, 0, pa, pv)
  {
    hide BitMarch;
    match (rising, order)
    case (true, AggressorFirst) => BitFlipRisingFirst(b, pa, pv);
    case (true, VictimFirst) => BitFlipRisingLast(b, pa, pv);
    case (false, AggressorFirst) => BitFlipFallingFirst(b, pa, pv);
    case (false, VictimFirst) => BitFlipFallingLast(b, pa, pv);
  }

  lemma BitForce(rising: bool, value: bool, b: Bits, order: Order, pa: bool, pv: bool)
    requires !order.Alone?
    ensures BitMarch(BitCoupling(rising, Force(value)), b, order, 0, pa, pv)
       <==> ForceEscapes(rising, value, order, b.agg, pa, pv)
  {
    hide BitMarch;
    match (rising, order)
    case (true, AggressorFirst) => BitRisingFirst(value, b, pa, pv);
    case (true, VictimFirst) => BitRisingLast(value, b, pa, pv);
    case (false, AggressorFirst) => BitFallingFirst(value, b, pa, pv);
    case (false, VictimFirst) => BitFallingLast(value, b, pa, pv);
  }
}
