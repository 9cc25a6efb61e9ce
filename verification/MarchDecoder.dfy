/**
 Fault-free memories and address decoder faults: the march test passes exactly when the
 word indices it tests reach different cells.
 */
module MarchDecoder {
  import opened Wrappers
  import opened PsramMarch

  ghost predicate Injective(route: seq<nat>, n: nat)
    requires n <= |route|
  {
    forall i, j :: 0 <= i < j < n ==> route[i] != route[j]
  }

  /** Every tested word has a cell of its own. */
  ghost predicate Faithful(f: Fault, n: nat) {
    f.Healthy? || (f.Decoder? && n <= |f.route| && Injective(f.route, n))
  }

  ghost predicate Meets(f: Fault, c: seq<Word>, k: nat, want: Option<Word>)
    requires Fits(f, |c|) && k < |c|
  {
    want.Some? ==> Load(f, c, k) == want.value
  }

  lemma StoreIsLocal(f: Fault, c: seq<Word>, n: nat, i: nat, w: Word, k: nat)
    requires Fits(f, |c|) && n <= |c| && Faithful(f, n) && i < n && k < n
    ensures Load(f, Store(f, c, i, w), k) == if k == i then w else Load(f, c, k)
  {
    if f.Decoder? && k != i {
      assert f.route[i] != f.route[k];
    }
  }

  /** The value phase `phase` leaves in word k of memory c. */
  ghost function Left(f: Fault, c: seq<Word>, phase: nat, k: nat, pat: nat -> Word): Word
    requires Fits(f, |c|) && k < |c|
  {
    var w := WriteAt(phase, k, pat);
    if w.Some? then w.value else Load(f, c, k)
  }

  lemma {:induction false} UpPasses(f: Fault, c: seq<Word>, phase: nat, k: nat, n: nat, pat: nat -> Word)
    requires Fits(f, |c|) && k <= n <= |c| && Faithful(f, n)
    requires forall j :: 0 <= j < n ==> Meets(f, c, j, ExpectAt(phase, j, pat))
    ensures var o := Run(f, c, Up(phase, k, pat));
            o.Done? && forall j :: 0 <= j < n ==>
              Load(f, o.cells, j) == if j < k then Left(f, c, phase, j, pat) else Load(f, c, j)
    decreases k
  {
    if k > 0 {
      UpPasses(f, c, phase, k - 1, n, pat);
      VisitPasses(f, c, Up(phase, k - 1, pat), phase, k - 1, n, pat);
    }
  }

  lemma {:induction false} DownPasses(f: Fault, c: seq<Word>, phase: nat, k: nat, n: nat, pat: nat -> Word)
    requires Fits(f, |c|) && k <= n <= |c| && Faithful(f, n)
    requires forall j :: 0 <= j < n ==> Meets(f, c, j, ExpectAt(phase, j, pat))
    ensures var o := Run(f, c, Down(phase, n, k, pat));
            o.Done? && forall j :: 0 <= j < n ==>
              Load(f, o.cells, j) == if j >= k then Left(f, c, phase, j, pat) else Load(f, c, j)
    decreases n - k
  {
    if k < n {
      DownPasses(f, c, phase, k + 1, n, pat);
      VisitPasses(f, c, Down(phase, n, k + 1, pat), phase, k, n, pat);
    }
  }

  /** One more step after `before`, at a word that `before` has not touched yet. */
  lemma VisitPasses(f: Fault, c: seq<Word>, before: seq<Step>, phase: nat, k: nat, n: nat, pat: nat -> Word)
    requires Fits(f, |c|) && k < n <= |c| && Faithful(f, n) && InRange(before, |c|)
    requires Meets(f, c, k, ExpectAt(phase, k, pat))
    requires var o := Run(f, c, before); o.Done? && Load(f, o.cells, k) == Load(f, c, k)
    ensures InRange(before + [StepAt(phase, k, pat)], |c|)
    ensures var o, p := Run(f, c, before), Run(f, c, before + [StepAt(phase, k, pat)]);
            p.Done? && Load(f, p.cells, k) == Left(f, c, phase, k, pat)
            && forall j :: 0 <= j < n && j != k ==> Load(f, p.cells, j) == Load(f, o.cells, j)
  {
    var o := Run(f, c, before);
    RunSnoc(f, c, before, StepAt(phase, k, pat));
    var w := WriteAt(phase, k, pat);
    if w.Some? {
      forall j | 0 <= j < n
        ensures Load(f, Store(f, o.cells, k, w.value), j) == if j == k then w.value else Load(f, o.cells, j)
      {
        StoreIsLocal(f, o.cells, n, k, w.value, j);
      }
    }
  }

  lemma PassPasses(f: Fault, c: seq<Word>, phase: nat, n: nat, pat: nat -> Word)
    requires Fits(f, |c|) && n <= |c| && Faithful(f, n)
    requires forall j :: 0 <= j < n ==> Meets(f, c, j, ExpectAt(phase, j, pat))
    ensures var o := Run(f, c, Pass(phase, n, pat));
            o.Done? && forall j :: 0 <= j < n ==> Load(f, o.cells, j) == Left(f, c, phase, j, pat)
  {
    if phase == 3 || phase == 4 {
      DownPasses(f, c, phase, 0, n, pat);
    } else {
      UpPasses(f, c, phase, n, n, pat);
    }
  }

  /** What a phase leaves is what the next one expects; the last one leaves zeros. */
  lemma PhasesFitTogether(f: Fault, c: seq<Word>, d: seq<Word>, phase: nat, j: nat, pat: nat -> Word)
    requires phase < 6 && |d| == |c| && Fits(f, |c|) && j < |c|
    requires Meets(f, c, j, ExpectAt(phase, j, pat)) && Load(f, d, j) == Left(f, c, phase, j, pat)
    ensures Meets(f, d, j, ExpectAt(phase + 1, j, pat)) && (phase == 5 ==> Load(f, d, j) == ZEROS)
  {
    hide Load;
  }

  lemma {:induction false} PhasesPass(f: Fault, c: seq<Word>, phase: nat, n: nat, pat: nat -> Word)
    requires Fits(f, |c|) && n <= |c| && Faithful(f, n) && phase <= 6
    requires forall j :: 0 <= j < n ==> Meets(f, c, j, ExpectAt(phase, j, pat))
    requires phase == 6 ==> forall j :: 0 <= j < n ==> Load(f, c, j) == ZEROS
    ensures var o := MarchFrom(f, c, phase, n, pat);
            o.Done? && forall j :: 0 <= j < n ==> Load(f, o.cells, j) == ZEROS
    decreases 6 - phase
  {
    hide Run, Pass, Meets, ExpectAt, Left, Faithful;
    if phase < 6 {
      PassPasses(f, c, phase, n, pat);
      var d, next := Run(f, c, Pass(phase, n, pat)).cells, phase + 1;
      forall j | 0 <= j < n
        ensures Meets(f, d, j, ExpectAt(next, j, pat)) && (phase == 5 ==> Load(f, d, j) == ZEROS)
      {
        PhasesFitTogether(f, c, d, phase, j, pat);
      }
      PhasesPass(f, d, next, n, pat);
    }
  }

  /** A memory whose tested words are distinct cells passes and ends all zero. */
  lemma FaithfulMemoryPasses(f: Fault, c: seq<Word>, n: nat, pat: nat -> Word)
    requires Fits(f, |c|) && n <= |c| && Faithful(f, n)
    ensures var o := March(f, c, n, pat);
            o.Done? && forall j :: 0 <= j < n ==> Load(f, o.cells, j) == ZEROS
  {
    PhasesPass(f, c, 0, n, pat);
  }

  lemma {:induction false} RunKeepsTail(c: seq<Word>, steps: seq<Step>, n: nat)
    requires n <= |c| && InRange(steps, n)
    ensures var o := Run(Healthy, c, steps); o.Done? ==> o.cells[n..] == c[n..]
    decreases |steps|
  {
    if steps != [] {
      var o := RunStep(Healthy, c, steps[0]);
      if o.Done? {
        RunKeepsTail(o.cells, steps[1..], n);
      }
    }
  }

  lemma {:induction false} PhasesKeepTail(c: seq<Word>, phase: nat, n: nat, pat: nat -> Word)
    requires n <= |c|
    ensures var o := MarchFrom(Healthy, c, phase, n, pat); o.Done? ==> o.cells[n..] == c[n..]
    decreases 6 - phase
  {
    if phase < 6 {
      RunKeepsTail(c, Pass(phase, n, pat), n);
      var o := Run(Healthy, c, Pass(phase, n, pat));
      if o.Done? {
        PhasesKeepTail(o.cells, phase + 1, n, pat);
      }
    }
  }

  /** Good memory: the test passes, zeroes the tested words and leaves every other word alone. */
  lemma HealthyMemoryPasses(c: seq<Word>, n: nat, pat: nat -> Word)
    requires n <= |c|
    ensures var o := March(Healthy, c, n, pat);
            o.Done? && |o.cells| == |c|
            && (forall k :: 0 <= k < n ==> o.cells[k] == ZEROS)
            && (forall k :: n <= k < |c| ==> o.cells[k] == c[k])
  {
    var f := Healthy;
    var o := March(f, c, n, pat);
    FaithfulMemoryPasses(f, c, n, pat);
    PhasesKeepTail(c, 0, n, pat);
    forall k | 0 <= k < |c|
      ensures o.cells[k] == if k < n then ZEROS else c[k]
    {
      if k < n {
        assert Load(f, o.cells, k) == ZEROS;
      } else {
        assert o.cells[k] == o.cells[n..][k - n] == c[n..][k - n];
      }
    }
  }

  /** Once phase 1 has written word i, its cell holds all ones for as long as the phase goes on. */
  lemma {:induction false} SharedCellStaysOnes(f: Fault, c: seq<Word>, i: nat, k: nat, pat: nat -> Word)
    requires f.Decoder? && Fits(f, |c|) && i < k <= |c|
    ensures var o := Run(f, c, Up(1, k, pat)); o.Done? ==> o.cells[f.route[i]] == ONES
    decreases k
  {
    RunSnoc(f, c, Up(1, k - 1, pat), StepAt(1, k - 1, pat));
    if i < k - 1 {
      SharedCellStaysOnes(f, c, i, k - 1, pat);
    }
  }

  lemma AliasedWordsFail(f: Fault, c: seq<Word>, i: nat, j: nat, n: nat, pat: nat -> Word)
    requires f.Decoder? && Fits(f, |c|) && i < j < n <= |c| && f.route[i] == f.route[j]
    ensures !Passes(f, c, n, pat)
  {
    hide Run, Pass;
    if Run(f, c, Pass(0, n, pat)).Done? {
      UpFailsOnAlias(f, Run(f, c, Pass(0, n, pat)).cells, i, j, n, pat);
    }
  }

  lemma UpFailsOnAlias(f: Fault, c: seq<Word>, i: nat, j: nat, n: nat, pat: nat -> Word)
    requires f.Decoder? && Fits(f, |c|) && i < j < n <= |c| && f.route[i] == f.route[j]
    ensures Run(f, c, Pass(1, n, pat)).Failed?
  {
    hide Run;
    SharedCellStaysOnes(f, c, i, j, pat);
    RunSnoc(f, c, Up(1, j, pat), StepAt(1, j, pat));
    if Run(f, c, Up(1, j, pat)).Done? {
      UpFails(f, c, 1, j + 1, n, pat);
    } else {
      UpFails(f, c, 1, j, n, pat);
    }
  }

  /**
   A memory whose decoder sends word indices to cells by an arbitrary function passes
   exactly when that function is injective on the tested range.
   */
  lemma DecoderPassesIffInjective(f: Fault, c: seq<Word>, n: nat, pat: nat -> Word)
    requires f.Decoder? && Fits(f, |c|) && n <= |c|
    ensures Passes(f, c, n, pat) <==> Injective(f.route, n)
  {
    if Injective(f.route, n) {
      FaithfulMemoryPasses(f, c, n, pat);
    } else {
      var i, j :| 0 <= i < j < n && f.route[i] == f.route[j];
      AliasedWordsFail(f, c, i, j, n, pat);
    }
  }
}
