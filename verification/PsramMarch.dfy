/**
 The RAM TEST march over PSRAM (shared/cmd_psram.c), run on a memory that may be faulty.

 A march step visits one word: it compares the word with an expected value and then stores
 a new one. The run of a step list on a memory with a fault is a function; the in-place
 method is proved equal to it, and the coverage theorems are about the function.
 */
module PsramMarch {
  import opened Wrappers
  import opened MarchBits

  type Word = bv32

  const ZEROS: Word := 0
  const ONES: Word := 0xFFFF_FFFF

  // ---------- words and bits ----------

  predicate OneBit(m: Word) {
    m != 0 && m & (m - 1) == 0
  }

  predicate Bit(w: Word, m: Word) {
    w & m != 0
  }

  function WithBit(w: Word, m: Word, v: bool): Word {
    if v then w | m else w & !m
  }

  /** a and b agree on every bit outside m. */
  predicate AgreeOff(a: Word, b: Word, m: Word) {
    a & !m == b & !m
  }

  lemma BitOfConstants(m: Word)
    requires OneBit(m)
    ensures !Bit(ZEROS, m) && Bit(ONES, m)
  {
  }

  lemma BitOfComplement(w: Word, m: Word)
    requires OneBit(m)
    ensures Bit(!w, m) == !Bit(w, m)
  {
  }

  lemma WithBitIsLocal(w: Word, m: Word, v: bool)
    requires OneBit(m)
    ensures Bit(WithBit(w, m, v), m) == v
    ensures forall u: Word :: AgreeOff(w, u, m) ==> AgreeOff(WithBit(w, m, v), u, m)
  {
  }

  lemma AgreeOffSelf(w: Word, m: Word)
    ensures AgreeOff(w, w, m)
  {
  }

  lemma EqualByBit(a: Word, b: Word, m: Word)
    requires OneBit(m) && AgreeOff(a, b, m)
    ensures a == b <==> Bit(a, m) == Bit(b, m)
  {
  }

  // ---------- memories ----------

  /** How a memory misbehaves; at most one fault is present. */
  datatype Fault =
    | Healthy
    | StuckAt(word: nat, mask: Word, value: bool)
    | NoTransition(word: nat, mask: Word, rising: bool)
    | Coupling(aggressor: nat, aggMask: Word, victim: nat, vicMask: Word, rising: bool, effect: Effect)
    | Decoder(route: seq<nat>)

  predicate Fits(f: Fault, size: nat) {
    match f
    case Healthy => true
    case StuckAt(k, m, _) => k < size && OneBit(m)
    case NoTransition(k, m, _) => k < size && OneBit(m)
    case Coupling(a, am, v, vm, _, _) => a < size && v < size && a != v && OneBit(am) && OneBit(vm)
    case Decoder(route) => |route| == size && forall k :: 0 <= k < size ==> route[k] < size
  }

  predicate Switches(before: Word, after: Word, m: Word, rising: bool) {
    Bit(before, m) != rising && Bit(after, m) == rising
  }

  function Affect(w: Word, m: Word, effect: Effect): Word {
    match effect
    case Invert => WithBit(w, m, !Bit(w, m))
    case Force(v) => WithBit(w, m, v)
  }

  function Load(f: Fault, c: seq<Word>, i: nat): Word
    requires Fits(f, |c|) && i < |c|
  {
    if f.Decoder? then c[f.route[i]] else c[i]
  }

  function Store(f: Fault, c: seq<Word>, i: nat, w: Word): (r: seq<Word>)
    requires Fits(f, |c|) && i < |c|
    ensures |r| == |c|
  {
    match f
    case Healthy => c[i := w]
    case StuckAt(k, m, v) => c[i := if i == k then WithBit(w, m, v) else w]
    case NoTransition(k, m, rising) =>
      c[i := if i == k && Switches(c[i], w, m, rising) then WithBit(w, m, !rising) else w]
    case Coupling(a, am, v, vm, rising, effect) =>
      var d := c[i := w];
      if i == a && Switches(c[a], w, am, rising) then d[v := Affect(d[v], vm, effect)] else d
    case Decoder(route) => c[route[i] := w]
  }

  // ---------- march steps and their runs ----------

  datatype Step = Step(phase: nat, word: nat, check: Option<Word>, write: Option<Word>)

  datatype Outcome =
    | Done(cells: seq<Word>)
    | Failed(phase: nat, word: nat, expected: Word, actual: Word, left: seq<Word>)

  predicate InRange(steps: seq<Step>, size: nat) {
    forall k :: 0 <= k < |steps| ==> steps[k].word < size
  }

  function RunStep(f: Fault, c: seq<Word>, s: Step): (o: Outcome)
    requires Fits(f, |c|) && s.word < |c|
    ensures o.Done? ==> |o.cells| == |c|
  {
    var actual := Load(f, c, s.word);
    if s.check.Some? && actual != s.check.value then
      Failed(s.phase, s.word, s.check.value, actual, c)
    else
      Done(if s.write.Some? then Store(f, c, s.word, s.write.value) else c)
  }

  function Run(f: Fault, c: seq<Word>, steps: seq<Step>): (o: Outcome)
    requires Fits(f, |c|) && InRange(steps, |c|)
    ensures o.Done? ==> |o.cells| == |c|
    decreases |steps|
  {
    if steps == [] then Done(c) else
    var o := RunStep(f, c, steps[0]);
    if o.Done? then Run(f, o.cells, steps[1..]) else o
  }

  lemma {:induction false} RunAppend(f: Fault, c: seq<Word>, a: seq<Step>, b: seq<Step>)
    requires Fits(f, |c|) && InRange(a, |c|) && InRange(b, |c|)
    ensures InRange(a + b, |c|)
    ensures Run(f, c, a + b) == (var o := Run(f, c, a); if o.Done? then Run(f, o.cells, b) else o)
    decreases |a|
  {
    if a == [] {
      assert a + b == b;
    } else {
      assert (a + b)[1..] == a[1..] + b;
      var o := RunStep(f, c, a[0]);
      if o.Done? {
        RunAppend(f, o.cells, a[1..], b);
      }
    }
  }

  lemma RunSnoc(f: Fault, c: seq<Word>, a: seq<Step>, s: Step)
    requires Fits(f, |c|) && InRange(a, |c|) && s.word < |c|
    ensures InRange(a + [s], |c|)
    ensures Run(f, c, a + [s]) == (var o := Run(f, c, a); if o.Done? then RunStep(f, o.cells, s) else o)
  {
    RunAppend(f, c, a, [s]);
    var o := Run(f, c, a);
    if o.Done? {
      var p := RunStep(f, o.cells, s);
      assert [s][1..] == [];
      assert Run(f, o.cells, [s]) == p;
    }
  }

  // ---------- the six phases ----------

  /** What phase `phase` expects to read in word k, and what it then writes there. */
  function ExpectAt(phase: nat, k: nat, pat: nat -> Word): Option<Word> {
    match phase
    case 1 => Some(ZEROS)
    case 2 => Some(ONES)
    case 3 => Some(pat(k))
    case 4 => Some(!pat(k))
    case 5 => Some(ZEROS)
    case _ => None
  }

  function WriteAt(phase: nat, k: nat, pat: nat -> Word): Option<Word> {
    match phase
    case 0 => Some(ZEROS)
    case 1 => Some(ONES)
    case 2 => Some(pat(k))
    case 3 => Some(!pat(k))
    case 4 => Some(ZEROS)
    case _ => None
  }

  function StepAt(phase: nat, k: nat, pat: nat -> Word): Step {
    Step(phase, k, ExpectAt(phase, k, pat), WriteAt(phase, k, pat))
  }

  /** Words 0, 1, .., k-1. */
  function Up(phase: nat, k: nat, pat: nat -> Word): (s: seq<Step>)
    ensures InRange(s, k)
  {
    if k == 0 then [] else Up(phase, k - 1, pat) + [StepAt(phase, k - 1, pat)]
  }

  /** Words n-1, n-2, .., k. */
  function Down(phase: nat, n: nat, k: nat, pat: nat -> Word): (s: seq<Step>)
    requires k <= n
    ensures InRange(s, n)
    decreases n - k
  {
    if k == n then [] else Down(phase, n, k + 1, pat) + [StepAt(phase, k, pat)]
  }

  function Pass(phase: nat, n: nat, pat: nat -> Word): (s: seq<Step>)
    ensures InRange(s, n)
  {
    if phase == 3 || phase == 4 then Down(phase, n, 0, pat) else Up(phase, n, pat)
  }

  /** The phases from `phase` to the last one, 5, each on the memory the one before left. */
  function MarchFrom(f: Fault, c: seq<Word>, phase: nat, n: nat, pat: nat -> Word): (o: Outcome)
    requires Fits(f, |c|) && n <= |c|
    ensures o.Done? ==> |o.cells| == |c|
    decreases 6 - phase
  {
    if phase >= 6 then Done(c) else
    var o := Run(f, c, Pass(phase, n, pat));
    if o.Done? then MarchFrom(f, o.cells, phase + 1, n, pat) else o
  }

  function March(f: Fault, c: seq<Word>, n: nat, pat: nat -> Word): Outcome
    requires Fits(f, |c|) && n <= |c|
  {
    MarchFrom(f, c, 0, n, pat)
  }

  /** True when the test reports no failure. */
  predicate Passes(f: Fault, c: seq<Word>, n: nat, pat: nat -> Word)
    requires Fits(f, |c|) && n <= |c|
  {
    March(f, c, n, pat).Done?
  }

  // ---------- the in-place test ----------

  /** A block of memory words whose behaviour is given by `fault`. */
  class Psram {
    const cells: array<Word>
    const fault: Fault

    constructor (words: array<Word>, f: Fault)
      ensures cells == words && fault == f
    {
      cells := words;
      fault := f;
    }

    method Read(i: nat) returns (w: Word)
      requires Fits(fault, cells.Length) && i < cells.Length
      ensures w == Load(fault, cells[..], i)
    {
      w := if fault.Decoder? then cells[fault.route[i]] else cells[i];
    }

    method Write(i: nat, w: Word)
      requires Fits(fault, cells.Length) && i < cells.Length
      modifies cells
      ensures cells[..] == Store(fault, old(cells[..]), i, w)
    {
      ghost var c := cells[..];
      match fault
      case Healthy =>
        cells[i] := w;
      case StuckAt(k, m, v) =>
        cells[i] := if i == k then WithBit(w, m, v) else w;
      case NoTransition(k, m, rising) =>
        cells[i] := if i == k && Switches(cells[i], w, m, rising) then WithBit(w, m, !rising) else w;
      case Coupling(a, am, v, vm, rising, effect) =>
        var switched := i == a && Switches(cells[a], w, am, rising);
        cells[i] := w;
        if switched {
          cells[v] := Affect(cells[v], vm, effect);
        }
      case Decoder(route) =>
        cells[route[i]] := w;
    }

    /** Reads word i, fails on a mismatch, then writes. */
    method Visit(s: Step) returns (o: Option<Outcome>)
      requires Fits(fault, cells.Length) && s.word < cells.Length
      modifies cells
      ensures var r := RunStep(fault, old(cells[..]), s);
              if r.Done? then o.None? && cells[..] == r.cells else o == Some(r) && cells[..] == r.left
    {
      if s.check.Some? {
        var actual := Read(s.word);
        if actual != s.check.value {
          return Some(Failed(s.phase, s.word, s.check.value, actual, cells[..]));
        }
      }
      if s.write.Some? {
        Write(s.word, s.write.value);
      }
      o := None;
    }

    method UpPass(phase: nat, n: nat, pat: nat -> Word) returns (o: Option<Outcome>)
      requires Fits(fault, cells.Length) && n <= cells.Length
      modifies cells
      ensures var r := Run(fault, old(cells[..]), Up(phase, n, pat));
              if r.Done? then o.None? && cells[..] == r.cells else o == Some(r) && cells[..] == r.left
    {
      hide ExpectAt, WriteAt, RunStep, Fits;
      ghost var c := cells[..];
      var i := 0;
      while i < n
        invariant i <= n
        invariant Run(fault, c, Up(phase, i, pat)) == Done(cells[..])
      {
        RunSnoc(fault, c, Up(phase, i, pat), StepAt(phase, i, pat));
        o := Visit(StepAt(phase, i, pat));
        i := i + 1;
        if o.Some? {
          UpFails(fault, c, phase, i, n, pat);
          return;
        }
      }
      o := None;
    }

    method DownPass(phase: nat, n: nat, pat: nat -> Word) returns (o: Option<Outcome>)
      requires Fits(fault, cells.Length) && n <= cells.Length
      modifies cells
      ensures var r := Run(fault, old(cells[..]), Down(phase, n, 0, pat));
              if r.Done? then o.None? && cells[..] == r.cells else o == Some(r) && cells[..] == r.left
    {
      hide ExpectAt, WriteAt, RunStep, Fits;
      ghost var c := cells[..];
      var i := n;
      while i > 0
        invariant 0 <= i <= n
        invariant Run(fault, c, Down(phase, n, i, pat)) == Done(cells[..])
      {
        i := i - 1;
        RunSnoc(fault, c, Down(phase, n, i + 1, pat), StepAt(phase, i, pat));
        o := Visit(StepAt(phase, i, pat));
        if o.Some? {
          DownFails(fault, c, phase, n, i, pat);
          return;
        }
      }
      o := None;
    }

    /** `bytes / 4` words are tested; the first mismatch is reported and ends the test. */
    method MarchTest(bytes: nat, pat: nat -> Word) returns (o: Option<Outcome>)
      requires Fits(fault, cells.Length) && bytes / 4 <= cells.Length
      modifies cells
      ensures var r := March(fault, old(cells[..]), bytes / 4, pat);
              if r.Done? then o.None? && cells[..] == r.cells else o == Some(r) && cells[..] == r.left
    {
      var n := bytes / 4;
      ghost var r := March(fault, cells[..], n, pat);
      o := UpPass(0, n, pat);
      if o.Some? { return; }
      assert r == MarchFrom(fault, cells[..], 1, n, pat);
      o := UpPass(1, n, pat);
      if o.Some? { return; }
      assert r == MarchFrom(fault, cells[..], 2, n, pat);
      o := UpPass(2, n, pat);
      if o.Some? { return; }
      assert r == MarchFrom(fault, cells[..], 3, n, pat);
      o := DownPass(3, n, pat);
      if o.Some? { return; }
      assert r == MarchFrom(fault, cells[..], 4, n, pat);
      o := DownPass(4, n, pat);
      if o.Some? { return; }
      assert r == MarchFrom(fault, cells[..], 5, n, pat);
      o := UpPass(5, n, pat);
    }
  }

  lemma {:induction false} UpFails(f: Fault, c: seq<Word>, phase: nat, k: nat, n: nat, pat: nat -> Word)
    requires Fits(f, |c|) && k <= n <= |c| && Run(f, c, Up(phase, k, pat)).Failed?
    ensures Run(f, c, Up(phase, n, pat)) == Run(f, c, Up(phase, k, pat))
    decreases n
  {
    if k < n {
      UpFails(f, c, phase, k, n - 1, pat);
      RunSnoc(f, c, Up(phase, n - 1, pat), StepAt(phase, n - 1, pat));
    }
  }

  lemma {:induction false} DownFails(f: Fault, c: seq<Word>, phase: nat, n: nat, k: nat, pat: nat -> Word)
    requires Fits(f, |c|) && k <= n <= |c| && Run(f, c, Down(phase, n, k, pat)).Failed?
    ensures Run(f, c, Down(phase, n, 0, pat)) == Run(f, c, Down(phase, n, k, pat))
    decreases k
  {
    if k > 0 {
      RunSnoc(f, c, Down(phase, n, k, pat), StepAt(phase, k - 1, pat));
      DownFails(f, c, phase, n, k - 1, pat);
    }
  }

  // ---------- what a failure reports ----------

  /** Phases 3 and 4 visit the words from the last to the first, the others from the first to the last. */
  lemma {:induction false} UpAt(phase: nat, n: nat, pat: nat -> Word, k: nat)
    requires k < n
    ensures |Up(phase, n, pat)| == n && Up(phase, n, pat)[k] == StepAt(phase, k, pat)
    decreases n
  {
    hide StepAt;
    if k < n - 1 {
      UpAt(phase, n - 1, pat, k);
    } else if n > 1 {
      UpAt(phase, n - 1, pat, 0);
    }
  }

  lemma {:induction false} DownAt(phase: nat, n: nat, j: nat, pat: nat -> Word, k: nat)
    requires j + k < n
    ensures |Down(phase, n, j, pat)| == n - j && Down(phase, n, j, pat)[k] == StepAt(phase, n - 1 - k, pat)
    decreases n - j
  {
    hide StepAt;
    if j + 1 < n {
      DownAt(phase, n, j + 1, pat, if j + 1 + k < n then k else 0);
    }
  }

  /** The word that visit k of a phase goes to, and what it expects and writes there. */
  lemma PassAt(phase: nat, n: nat, pat: nat -> Word, k: nat)
    requires k < n
    ensures |Pass(phase, n, pat)| == n
    ensures var s := Pass(phase, n, pat)[k];
            && s.phase == phase && s.word == (if phase == 3 || phase == 4 then n - 1 - k else k)
            && s.check == ExpectAt(phase, s.word, pat) && s.write == WriteAt(phase, s.word, pat)
  {
    if phase == 3 || phase == 4 {
      DownAt(phase, n, 0, pat, k);
    } else {
      UpAt(phase, n, pat, k);
    }
  }

  lemma {:induction false} PassLength(phase: nat, n: nat, pat: nat -> Word)
    ensures |Pass(phase, n, pat)| == n
  {
    if n > 0 {
      PassAt(phase, n, pat, 0);
    }
  }

  /** A run that fails reports its first visit that does not read what it expects, and changes nothing there. */
  lemma {:induction false} RunReport(f: Fault, c: seq<Word>, steps: seq<Step>) returns (k: nat)
    requires Fits(f, |c|) && InRange(steps, |c|) && Run(f, c, steps).Failed?
    ensures k < |steps| && InRange(steps[..k], |c|)
    ensures var o := Run(f, c, steps);
            && Run(f, c, steps[..k]) == Done(o.left) && |o.left| == |c|
            && o.phase == steps[k].phase && o.word == steps[k].word
            && steps[k].check == Some(o.expected)
            && o.actual == Load(f, o.left, o.word) && o.actual != o.expected
    decreases |steps|
  {
    hide Load, Store;
    var o := RunStep(f, c, steps[0]);
    if o.Done? {
      var j := RunReport(f, o.cells, steps[1..]);
      k := j + 1;
      assert steps[..k][1..] == steps[1..][..j] && steps[..k][0] == steps[0];
    } else {
      k := 0;
    }
  }

  /** What the test expects in word k of each phase: zeros, ones, the pattern, its complement, zeros. */
  predicate Expects(phase: nat, w: Word, p: Word) {
    || (phase == 1 && w == 0) || (phase == 2 && w == 0xFFFF_FFFF) || (phase == 3 && w == p)
    || (phase == 4 && w == !p) || (phase == 5 && w == 0)
  }

  lemma ExpectsWhatWasWritten(phase: nat, k: nat, pat: nat -> Word)
    requires ExpectAt(phase, k, pat).Some?
    ensures 1 <= phase <= 5 && Expects(phase, ExpectAt(phase, k, pat).value, pat(k))
    ensures WriteAt(phase - 1, k, pat) == ExpectAt(phase, k, pat)
  {
  }

  /**
   The report of a failing test: the phase, from 1 to 5, and the first word of it, in its order, that
   does not read as it should; what it should be, which is what the phase before wrote there; and
   what the memory shows. `d` is the memory at the start of that phase, after k good visits.
   */
  lemma {:induction false} FailureReport(f: Fault, c: seq<Word>, phase: nat, n: nat, pat: nat -> Word)
    returns (d: seq<Word>, k: nat)
    requires Fits(f, |c|) && n <= |c| && MarchFrom(f, c, phase, n, pat).Failed?
    ensures var o := MarchFrom(f, c, phase, n, pat);
            && phase <= o.phase && |d| == |c| == |o.left| && k < n == |Pass(o.phase, n, pat)|
            && o.word == (if o.phase == 3 || o.phase == 4 then n - 1 - k else k)
            && Run(f, d, Pass(o.phase, n, pat)[..k]) == Done(o.left)
            && Expects(o.phase, o.expected, pat(o.word)) && WriteAt(o.phase - 1, o.word, pat) == Some(o.expected)
            && o.actual == Load(f, o.left, o.word) && o.actual != o.expected
    decreases 6 - phase
  {
    hide Load, Store, Run, Pass, ExpectAt, WriteAt, Expects, Fits;
    var steps := Pass(phase, n, pat);
    var r := Run(f, c, steps);
    PassLength(phase, n, pat);
    if r.Done? {
      d, k := FailureReport(f, r.cells, phase + 1, n, pat);
    } else {
      d := c;
      k := RunReport(f, c, steps);
      PassAt(phase, n, pat, k);
      ExpectsWhatWasWritten(phase, steps[k].word, pat);
    }
  }
}
