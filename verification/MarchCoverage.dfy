/**
 Which single-bit and inter-word coupling faults the march test detects.

 The run of the test on a faulty memory is projected to the one or two bits the fault
 touches; everything else behaves like a healthy twin of the memory, on which the test passes.
 */
module MarchCoverage {
  import opened Wrappers
  import opened PsramMarch
  import opened MarchDecoder
  import opened MarchBits

  // ---------- projecting a word-level run ----------

  predicate Local(f: Fault) {
    f.StuckAt? || f.NoTransition? || f.Coupling?
  }

  function VictimWord(f: Fault): nat
    requires Local(f)
  {
    if f.Coupling? then f.victim else f.word
  }

  function VictimMask(f: Fault): Word
    requires Local(f)
  {
    if f.Coupling? then f.vicMask else f.mask
  }

  function BitFaultOf(f: Fault): BitFault
    requires Local(f)
  {
    match f
    case StuckAt(_, _, v) => BitStuck(v)
    case NoTransition(_, _, rising) => BitNoTransition(rising)
    case Coupling(_, _, _, _, rising, effect) => BitCoupling(rising, effect)
  }

  function OrderOf(f: Fault): Order
    requires Local(f)
  {
    if !f.Coupling? then Alone else if f.aggressor < f.victim then AggressorFirst else VictimFirst
  }

  function BitOf(w: Option<Word>, m: Word): Option<bool> {
    if w.Some? then Some(Bit(w.value, m)) else None
  }

  function Project(f: Fault, s: Step): seq<BitStep>
    requires Local(f)
  {
    if s.word == VictimWord(f) then [BitStep(true, BitOf(s.check, VictimMask(f)), BitOf(s.write, VictimMask(f)))]
    else if f.Coupling? && s.word == f.aggressor then [BitStep(false, BitOf(s.check, f.aggMask), BitOf(s.write, f.aggMask))]
    else []
  }

  function ProjectAll(f: Fault, steps: seq<Step>): seq<BitStep>
    requires Local(f)
  {
    if steps == [] then [] else Project(f, steps[0]) + ProjectAll(f, steps[1..])
  }

  lemma {:induction false} ProjectAllAppend(f: Fault, a: seq<Step>, b: seq<Step>)
    requires Local(f)
    ensures ProjectAll(f, a + b) == ProjectAll(f, a) + ProjectAll(f, b)
    decreases |a|
  {
    if a == [] {
      assert a + b == b;
    } else {
      assert (a + b)[1..] == a[1..] + b;
      ProjectAllAppend(f, a[1..], b);
    }
  }

  /** h is what c would be without the fault; b holds the bits of c that the fault touches. */
  ghost predicate Twin(f: Fault, c: seq<Word>, h: seq<Word>, b: Bits)
    requires Local(f) && Fits(f, |c|)
  {
    var v, m := VictimWord(f), VictimMask(f);
    && |h| == |c|
    && (forall k :: 0 <= k < |c| && k != v ==> c[k] == h[k])
    && AgreeOff(c[v], h[v], m)
    && b.vic == Bit(c[v], m)
    && (f.Coupling? ==> b.agg == Bit(c[f.aggressor], f.aggMask))
  }

  lemma ProjectCellStore(f: Fault, c: seq<Word>, h: seq<Word>, b: Bits, w: Word)
    requires (f.StuckAt? || f.NoTransition?) && Fits(f, |c|) && Twin(f, c, h, b)
    ensures Twin(f, Store(f, c, f.word, w), h[f.word := w], BitStore(BitFaultOf(f), b, true, Bit(w, f.mask)))
  {
    hide Bit, WithBit, AgreeOff, OneBit;
    AgreeOffSelf(w, f.mask);
    WithBitIsLocal(w, f.mask, true);
    WithBitIsLocal(w, f.mask, false);
  }

  lemma ProjectAggressorStore(f: Fault, c: seq<Word>, h: seq<Word>, b: Bits, w: Word)
    requires f.Coupling? && Fits(f, |c|) && Twin(f, c, h, b)
    ensures Twin(f, Store(f, c, f.aggressor, w), h[f.aggressor := w],
                 BitStore(BitFaultOf(f), b, false, Bit(w, f.aggMask)))
  {
    hide Bit, WithBit, AgreeOff, OneBit;
    var v := c[f.victim];
    WithBitIsLocal(v, f.vicMask, true);
    WithBitIsLocal(v, f.vicMask, false);
  }

  lemma ProjectVictimStore(f: Fault, c: seq<Word>, h: seq<Word>, b: Bits, w: Word)
    requires f.Coupling? && Fits(f, |c|) && Twin(f, c, h, b)
    ensures Twin(f, Store(f, c, f.victim, w), h[f.victim := w],
                 BitStore(BitFaultOf(f), b, true, Bit(w, f.vicMask)))
  {
    hide Bit, WithBit, AgreeOff, OneBit;
    AgreeOffSelf(w, f.vicMask);
  }

  lemma ProjectOtherStore(f: Fault, c: seq<Word>, h: seq<Word>, b: Bits, i: nat, w: Word)
    requires Local(f) && Fits(f, |c|) && Twin(f, c, h, b) && i < |c|
    requires i != VictimWord(f) && !(f.Coupling? && i == f.aggressor)
    ensures Twin(f, Store(f, c, i, w), h[i := w], b)
  {
    hide Bit, WithBit, AgreeOff, OneBit;
  }

  lemma HealthyVisit(h: seq<Word>, s: Step)
    requires s.word < |h| && RunStep(Healthy, h, s).Done?
    ensures s.check.Some? ==> h[s.word] == s.check.value
    ensures RunStep(Healthy, h, s).cells == if s.write.Some? then h[s.word := s.write.value] else h
  {
  }

  lemma ProjectStore(f: Fault, c: seq<Word>, h: seq<Word>, b: Bits, s: Step)
    requires Local(f) && Fits(f, |c|) && Twin(f, c, h, b) && s.word < |c| && s.write.Some?
    ensures var d, g := Store(f, c, s.word, s.write.value), h[s.word := s.write.value];
            if Project(f, s) == [] then Twin(f, d, g, b)
            else Twin(f, d, g, BitStore(BitFaultOf(f), b, Project(f, s)[0].onVictim, Project(f, s)[0].write.value))
  {
    hide Bit, WithBit, AgreeOff, OneBit, Store, BitStore, Switches, Affect;
    var w := s.write.value;
    if s.word == VictimWord(f) {
      if f.Coupling? { ProjectVictimStore(f, c, h, b, w); } else { ProjectCellStore(f, c, h, b, w); }
    } else if f.Coupling? && s.word == f.aggressor {
      ProjectAggressorStore(f, c, h, b, w);
    } else {
      ProjectOtherStore(f, c, h, b, s.word, w);
    }
  }

  lemma TwinAt(f: Fault, c: seq<Word>, h: seq<Word>, b: Bits, k: nat)
    requires Local(f) && Fits(f, |c|) && Twin(f, c, h, b) && k < |c|
    ensures k == VictimWord(f) ==> AgreeOff(c[k], h[k], VictimMask(f)) && b.vic == Bit(c[k], VictimMask(f))
    ensures k != VictimWord(f) ==> c[k] == h[k]
    ensures f.Coupling? && k == f.aggressor ==> b.agg == Bit(c[k], f.aggMask)
  {
    hide Bit, AgreeOff, OneBit;
  }

  lemma BitVisitChecks(bf: BitFault, b: Bits, s: BitStep)
    ensures BitVisit(bf, b, s).Some? <==> s.check.None? || s.check.value == if s.onVictim then b.vic else b.agg
  {
    hide BitStore;
  }

  lemma FitsMasks(f: Fault, size: nat)
    requires Local(f) && Fits(f, size)
    ensures OneBit(VictimMask(f)) && VictimWord(f) < size
    ensures f.Coupling? ==> OneBit(f.aggMask) && f.aggressor < size && f.aggressor != f.victim
  {
    hide OneBit;
  }

  lemma ProjectVictimCheck(f: Fault, c: seq<Word>, h: seq<Word>, b: Bits, s: Step)
    requires Local(f) && Fits(f, |c|) && Twin(f, c, h, b) && s.check.Some? && s.word == VictimWord(f)
    requires h[s.word] == s.check.value
    ensures Load(f, c, s.word) == s.check.value <==> BitVisit(BitFaultOf(f), b, Project(f, s)[0]).Some?
  {
    hide Bit, AgreeOff, OneBit, BitVisit, BitFaultOf, Twin, Fits;
    FitsMasks(f, |c|);
    TwinAt(f, c, h, b, s.word);
    BitVisitChecks(BitFaultOf(f), b, Project(f, s)[0]);
    EqualByBit(c[s.word], s.check.value, VictimMask(f));
  }

  lemma ProjectOtherCheck(f: Fault, c: seq<Word>, h: seq<Word>, b: Bits, s: Step)
    requires Local(f) && Fits(f, |c|) && Twin(f, c, h, b) && s.word < |c| && s.check.Some?
    requires s.word != VictimWord(f) && h[s.word] == s.check.value
    ensures Load(f, c, s.word) == s.check.value
    ensures Project(f, s) != [] ==> BitVisit(BitFaultOf(f), b, Project(f, s)[0]).Some?
  {
    hide Bit, AgreeOff, OneBit, BitVisit, BitFaultOf, Twin, Fits;
    TwinAt(f, c, h, b, s.word);
    if Project(f, s) != [] {
      BitVisitChecks(BitFaultOf(f), b, Project(f, s)[0]);
    }
  }

  lemma ProjectCheck(f: Fault, c: seq<Word>, h: seq<Word>, b: Bits, s: Step)
    requires Local(f) && Fits(f, |c|) && Twin(f, c, h, b) && s.word < |c| && s.check.Some?
    requires h[s.word] == s.check.value
    ensures Load(f, c, s.word) == s.check.value
       <==> (Project(f, s) != [] ==> BitVisit(BitFaultOf(f), b, Project(f, s)[0]).Some?)
  {
    hide Bit, AgreeOff, OneBit, BitVisit, BitFaultOf, Twin, Fits, Load;
    if s.word == VictimWord(f) {
      ProjectVictimCheck(f, c, h, b, s);
    } else {
      ProjectOtherCheck(f, c, h, b, s);
    }
  }

  lemma ProjectVisit(f: Fault, c: seq<Word>, h: seq<Word>, b: Bits, s: Step)
    requires Local(f) && Fits(f, |c|) && Twin(f, c, h, b) && s.word < |c| && RunStep(Healthy, h, s).Done?
    ensures var o, r := RunStep(f, c, s), BitRun(BitFaultOf(f), b, Project(f, s));
            (o.Done? <==> r.Some?) && (o.Done? ==> Twin(f, o.cells, RunStep(Healthy, h, s).cells, r.value))
  {
    hide Bit, WithBit, AgreeOff, OneBit, Store, BitStore, Switches, Affect;
    var bf := BitFaultOf(f);
    var p := Project(f, s);
    HealthyVisit(h, s);
    if p != [] {
      assert p[1..] == [];
      assert BitRun(bf, b, p) == BitVisit(bf, b, p[0]);
    }
    if s.check.Some? {
      ProjectCheck(f, c, h, b, s);
    }
    if s.write.Some? {
      ProjectStore(f, c, h, b, s);
    }
  }

  lemma {:induction false} ProjectRun(f: Fault, c: seq<Word>, h: seq<Word>, b: Bits, steps: seq<Step>)
    requires Local(f) && Fits(f, |c|) && Twin(f, c, h, b) && InRange(steps, |c|) && Run(Healthy, h, steps).Done?
    ensures var o, r := Run(f, c, steps), BitRun(BitFaultOf(f), b, ProjectAll(f, steps));
            (o.Done? <==> r.Some?) && (o.Done? ==> Twin(f, o.cells, Run(Healthy, h, steps).cells, r.value))
    decreases |steps|
  {
    hide Bit, WithBit, AgreeOff, OneBit;
    if steps != [] {
      var s := steps[0];
      ProjectVisit(f, c, h, b, s);
      BitRunAppend(BitFaultOf(f), b, Project(f, s), ProjectAll(f, steps[1..]));
      var o := RunStep(f, c, s);
      if o.Done? {
        ProjectRun(f, o.cells, RunStep(Healthy, h, s).cells, BitRun(BitFaultOf(f), b, Project(f, s)).value, steps[1..]);
      }
    }
  }

  // ---------- what the projection of a pass is ----------

  function AggressorBit(f: Fault, pat: nat -> Word): bool {
    f.Coupling? && Bit(pat(f.aggressor), f.aggMask)
  }

  function VictimBit(f: Fault, pat: nat -> Word): bool
    requires Local(f)
  {
    Bit(pat(VictimWord(f)), VictimMask(f))
  }

  lemma BitOfStepAt(phase: nat, k: nat, pat: nat -> Word, m: Word)
    requires OneBit(m)
    ensures BitOf(ExpectAt(phase, k, pat), m) == BitCheck(phase, Bit(pat(k), m))
    ensures BitOf(WriteAt(phase, k, pat), m) == BitWrite(phase, Bit(pat(k), m))
  {
    hide Bit, OneBit;
    BitOfConstants(m);
    BitOfComplement(pat(k), m);
  }

  lemma ProjectStepAt(f: Fault, phase: nat, k: nat, n: nat, pat: nat -> Word)
    requires Local(f) && Fits(f, n)
    ensures Project(f, StepAt(phase, k, pat))
         == if k == VictimWord(f) then [BitStepAt(phase, true, VictimBit(f, pat))]
            else if f.Coupling? && k == f.aggressor then [BitStepAt(phase, false, AggressorBit(f, pat))]
            else []
  {
    hide Bit, OneBit, BitOf, BitCheck, BitWrite, ExpectAt, WriteAt;
    BitOfStepAt(phase, k, pat, VictimMask(f));
    if f.Coupling? {
      BitOfStepAt(phase, k, pat, f.aggMask);
    }
  }

  lemma ProjectOne(f: Fault, s: Step)
    requires Local(f)
    ensures ProjectAll(f, [s]) == Project(f, s)
  {
    assert [s][1..] == [];
    assert ProjectAll(f, [s]) == Project(f, s) + ProjectAll(f, []);
  }

  lemma {:induction false} ProjectUp(f: Fault, phase: nat, k: nat, n: nat, pat: nat -> Word)
    requires Local(f) && Fits(f, n) && k <= n
    ensures ProjectAll(f, Up(phase, k, pat))
         == (var v := BitStepAt(phase, true, VictimBit(f, pat));
             var a := BitStepAt(phase, false, AggressorBit(f, pat));
             var seenV, seenA := VictimWord(f) < k, f.Coupling? && f.aggressor < k;
             if seenV && seenA then (if OrderOf(f).AggressorFirst? then [a, v] else [v, a])
             else if seenV then [v] else if seenA then [a] else [])
    decreases k
  {
    hide StepAt, BitStepAt, AggressorBit, VictimBit, Project;
    if k > 0 {
      ProjectUp(f, phase, k - 1, n, pat);
      ProjectAllAppend(f, Up(phase, k - 1, pat), [StepAt(phase, k - 1, pat)]);
      ProjectOne(f, StepAt(phase, k - 1, pat));
      ProjectStepAt(f, phase, k - 1, n, pat);
    }
  }

  lemma {:induction false} ProjectDown(f: Fault, phase: nat, k: nat, n: nat, pat: nat -> Word)
    requires Local(f) && Fits(f, n) && k <= n
    ensures ProjectAll(f, Down(phase, n, k, pat))
         == (var v := BitStepAt(phase, true, VictimBit(f, pat));
             var a := BitStepAt(phase, false, AggressorBit(f, pat));
             var seenV, seenA := VictimWord(f) >= k, f.Coupling? && f.aggressor >= k;
             if seenV && seenA then (if OrderOf(f).AggressorFirst? then [v, a] else [a, v])
             else if seenV then [v] else if seenA then [a] else [])
    decreases n - k
  {
    hide StepAt, BitStepAt, AggressorBit, VictimBit, Project;
    if k < n {
      ProjectDown(f, phase, k + 1, n, pat);
      ProjectAllAppend(f, Down(phase, n, k + 1, pat), [StepAt(phase, k, pat)]);
      ProjectOne(f, StepAt(phase, k, pat));
      ProjectStepAt(f, phase, k, n, pat);
    }
  }

  lemma ProjectPass(f: Fault, phase: nat, n: nat, pat: nat -> Word)
    requires Local(f) && Fits(f, n)
    ensures ProjectAll(f, Pass(phase, n, pat))
         == BitPass(OrderOf(f), phase, AggressorBit(f, pat), VictimBit(f, pat))
  {
    if phase == 3 || phase == 4 {
      ProjectDown(f, phase, 0, n, pat);
    } else {
      ProjectUp(f, phase, n, n, pat);
    }
  }

  lemma {:induction false} ProjectMarch(f: Fault, c: seq<Word>, h: seq<Word>, b: Bits, phase: nat, n: nat, pat: nat -> Word)
    requires Local(f) && Fits(f, n) && n <= |c| && phase <= 6 && Fits(f, |c|) && Twin(f, c, h, b)
    requires MarchFrom(Healthy, h, phase, n, pat).Done?
    ensures MarchFrom(f, c, phase, n, pat).Done?
       <==> BitMarch(BitFaultOf(f), b, OrderOf(f), phase, AggressorBit(f, pat), VictimBit(f, pat))
    decreases 6 - phase
  {
    if phase < 6 {
      var bf := BitFaultOf(f);
      var steps := Pass(phase, n, pat);
      ProjectRun(f, c, h, b, steps);
      ProjectPass(f, phase, n, pat);
      BitPhaseIsPass(bf, b, OrderOf(f), phase, AggressorBit(f, pat), VictimBit(f, pat));
      if Run(f, c, steps).Done? {
        ProjectMarch(f, Run(f, c, steps).cells, Run(Healthy, h, steps).cells,
                     BitRun(bf, b, ProjectAll(f, steps)).value, phase + 1, n, pat);
      }
    }
  }

  /** The verdict on a memory with a local fault is the verdict on its one or two faulty bits. */
  lemma VerdictIsLocal(f: Fault, c: seq<Word>, n: nat, pat: nat -> Word) returns (b: Bits)
    requires Local(f) && Fits(f, n) && n <= |c|
    ensures b.agg == (f.Coupling? && Bit(c[f.aggressor], f.aggMask))
    ensures Passes(f, c, n, pat)
       <==> BitMarch(BitFaultOf(f), b, OrderOf(f), 0, AggressorBit(f, pat), VictimBit(f, pat))
  {
    var h := Healthy;
    FaithfulMemoryPasses(h, c, n, pat);
    b := Bits(f.Coupling? && Bit(c[f.aggressor], f.aggMask), Bit(c[VictimWord(f)], VictimMask(f)));
    ProjectMarch(f, c, c, b, 0, n, pat);
  }

  // ---------- coverage ----------

  /** Any bit stuck at 0 or at 1, or unable to rise, or unable to fall, is found. */
  lemma CellFaultsAreFound(f: Fault, c: seq<Word>, n: nat, pat: nat -> Word)
    requires f.StuckAt? || f.NoTransition?
    requires Fits(f, n) && n <= |c|
    ensures !Passes(f, c, n, pat)
  {
    var b := VerdictIsLocal(f, c, n, pat);
    BitCellFaultsFail(BitFaultOf(f), b, VictimBit(f, pat));
  }

  /** A rise, or a fall, of any bit that flips a bit of another word is found. */
  lemma InversionCouplingIsFound(f: Fault, c: seq<Word>, n: nat, pat: nat -> Word)
    requires f.Coupling? && f.effect.Invert?
    requires Fits(f, n) && n <= |c|
    ensures !Passes(f, c, n, pat)
  {
    var b := VerdictIsLocal(f, c, n, pat);
    BitInversionFails(f.rising, b, OrderOf(f), AggressorBit(f, pat), VictimBit(f, pat));
  }

  /** A rise, or a fall, that forces a bit of another word to a value is missed exactly when ForceEscapes says so. */
  lemma ForcedCouplingVerdict(f: Fault, c: seq<Word>, n: nat, pat: nat -> Word)
    requires f.Coupling? && f.effect.Force?
    requires Fits(f, n) && n <= |c|
    ensures Passes(f, c, n, pat)
       <==> ForceEscapes(f.rising, f.effect.value, OrderOf(f),
                         Bit(c[f.aggressor], f.aggMask), AggressorBit(f, pat), VictimBit(f, pat))
  {
    var b := VerdictIsLocal(f, c, n, pat);
    BitForce(f.rising, f.effect.value, b, OrderOf(f), AggressorBit(f, pat), VictimBit(f, pat));
  }
}
