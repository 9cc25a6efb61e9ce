/**
 The bank of RAM program slots behind the RAM command (shared/cmd_psram.c) and the flash
 region that RAM LOAD programs. `Exec` says what each command does to the bank; the class
 does it in place on two byte arrays.
 */
module RamSlots {
  import opened Wrappers

  /** A byte of memory as eight bits, for the AND of flash programming. */
  type octet = bv8

  const MAXRAMSLOTS := 5
  const PAGE := 4096

  /** What ProgMemory points at. */
  datatype ProgPointer = FlashProgram | RamSlot(slot: nat)

  datatype Bank = Bank(block: seq<octet>, flash: seq<octet>, prog: ProgPointer, flashLoad: nat)

  /** The second argument of RAM LIST: absent, ALL, or something else. */
  datatype ListTail = NoTail | AllLines | BadTail

  datatype Command =
    | Save(i: int)
    | Overwrite(i: int)
    | Erase(i: int)
    | EraseAll
    | ListAll
    | List(i: int, tail: ListTail)
    | FileLoad(i: int, overwrite: bool, loaded: seq<octet>)
    | Load(i: int)
    | Chain(i: int)
    | Run(i: int)

  datatype Error =
    | OutOfRange | AlreadyProgrammed | SyntaxError | InvalidInProgram | InvalidAtPrompt | EraseError | FlashSlotEmpty

  /** `size` is MAX_PROG_SIZE: a whole number of flash pages. */
  ghost predicate Sized(b: Bank, size: nat) {
    && size > 0 && size % PAGE == 0
    && |b.flash| == size
    && |b.block| >= MAXRAMSLOTS * size
    && (b.prog.RamSlot? ==> IsSlot(b.prog.slot))
  }

  predicate IsSlot(i: int) {
    1 <= i <= MAXRAMSLOTS
  }

  /** FILE LOAD fills the slot from a file; `loaded` is the slot as MemLoadProgram leaves it. */
  predicate WellSized(c: Command, size: nat) {
    c.FileLoad? ==> |c.loaded| == size
  }

  function Offset(i: int, size: nat): (o: int)
    requires IsSlot(i)
    ensures 0 <= o && o + size <= MAXRAMSLOTS * size
  {
    (i - 1) * size
  }

  function Slot(block: seq<octet>, i: int, size: nat): seq<octet>
    requires IsSlot(i) && |block| >= MAXRAMSLOTS * size
  {
    block[Offset(i, size)..Offset(i, size) + size]
  }

  function SetSlot(block: seq<octet>, i: int, size: nat, image: seq<octet>): (r: seq<octet>)
    requires IsSlot(i) && |block| >= MAXRAMSLOTS * size && |image| == size
    ensures |r| == |block|
  {
    block[..Offset(i, size)] + image + block[Offset(i, size) + size..]
  }

  /** The program text ProgMemory points at. */
  function Program(b: Bank, size: nat): (s: seq<octet>)
    requires Sized(b, size)
    ensures |s| == size
  {
    if b.prog.FlashProgram? then b.flash else Slot(b.block, b.prog.slot, size)
  }

  /** The flash program area after the empty-program stub is written to it. */
  function EmptyProgram(size: nat): (s: seq<octet>)
    requires size >= 3
    ensures |s| == size
  {
    [0, 0, 0] + Filled(size - 3, 0xFF)
  }

  function Exec(b: Bank, c: Command, inProgram: bool, size: nat): (r: (Bank, Option<Error>))
    requires Sized(b, size) && WellSized(c, size)
  {
    match c
    case Save(i) =>
      if !IsSlot(i) then (b, Some(OutOfRange))
      else if Slot(b.block, i, size)[0] != 0 then (b, Some(AlreadyProgrammed))
      else (b.(block := SetSlot(b.block, i, size, Program(b, size))), None)
    case Overwrite(i) =>
      if !IsSlot(i) then (b, Some(OutOfRange)) else
      var z := b.(block := SetSlot(b.block, i, size, Filled(size, 0)));
      (z.(block := SetSlot(z.block, i, size, Program(z, size))), None)
    case Erase(i) =>
      if !IsSlot(i) then (b, Some(OutOfRange))
      else (b.(block := SetSlot(b.block, i, size, Filled(size, 0))), None)
    case EraseAll => (b.(block := Filled(|b.block|, 0)), None)
    case ListAll => (b, None)
    case List(i, tail) =>
      if !IsSlot(i) then (b, Some(OutOfRange))
      else if tail.BadTail? then (b.(prog := RamSlot(i)), Some(SyntaxError))
      else (b.(prog := FlashProgram), None)
    case FileLoad(i, overwrite, loaded) =>
      if !IsSlot(i) then (b, Some(OutOfRange))
      else if Slot(b.block, i, size)[0] != 0 && !overwrite then (b, Some(AlreadyProgrammed))
      else (b.(block := SetSlot(b.block, i, size, loaded)), None)
    case Load(i) =>
      if inProgram then (b, Some(InvalidInProgram))
      else if !IsSlot(i) then (b, Some(OutOfRange))
      else if Slot(b.block, i, size)[0] == 0xFF then (b.(flash := EmptyProgram(size)), Some(FlashSlotEmpty))
      else (b.(flash := Slot(b.block, i, size), flashLoad := 0), None)
    case Chain(i) =>
      if !inProgram then (b, Some(InvalidAtPrompt)) else Launch(b, i)
    case Run(i) => Launch(b, i)
  }

  function Launch(b: Bank, i: int): (Bank, Option<Error>) {
    if i != 0 && !IsSlot(i) then (b, Some(OutOfRange))
    else (b.(prog := if i == 0 then FlashProgram else RamSlot(i), flashLoad := i), None)
  }

  // ---------- slots are independent ----------

  lemma OffsetsAreApart(i: int, j: int, size: nat)
    requires IsSlot(i) && IsSlot(j) && i < j
    ensures Offset(i, size) + size <= Offset(j, size)
  {
    assert i * size <= (j - 1) * size;
  }

  lemma SlotOfSetSlot(block: seq<octet>, i: int, j: int, size: nat, image: seq<octet>)
    requires IsSlot(i) && IsSlot(j) && |block| >= MAXRAMSLOTS * size && |image| == size
    ensures Slot(SetSlot(block, i, size, image), j, size) == if i == j then image else Slot(block, j, size)
  {
    var r := SetSlot(block, i, size, image);
    if i < j {
      OffsetsAreApart(i, j, size);
    } else if j < i {
      OffsetsAreApart(j, i, size);
    }
    forall k | Offset(j, size) <= k < Offset(j, size) + size
      ensures r[k] == if i == j then image[k - Offset(j, size)] else block[k]
    {
    }
  }

  /** The slot a command writes, if any. */
  predicate Writes(c: Command, i: int) {
    match c
    case Save(j) => i == j
    case Overwrite(j) => i == j
    case Erase(j) => i == j
    case EraseAll => true
    case FileLoad(j, _, _) => i == j
    case _ => false
  }

  lemma ExecKeepsOtherSlots(b: Bank, c: Command, inProgram: bool, size: nat, i: int)
    requires Sized(b, size) && WellSized(c, size) && IsSlot(i) && !Writes(c, i)
    ensures Sized(Exec(b, c, inProgram, size).0, size)
    ensures Slot(Exec(b, c, inProgram, size).0.block, i, size) == Slot(b.block, i, size)
  {
    match c
    case Save(j) =>
      if IsSlot(j) { SlotOfSetSlot(b.block, j, i, size, Program(b, size)); }
    case Overwrite(j) =>
      if IsSlot(j) {
        var z := b.(block := SetSlot(b.block, j, size, Filled(size, 0)));
        SlotOfSetSlot(b.block, j, i, size, Filled(size, 0));
        SlotOfSetSlot(z.block, j, i, size, Program(z, size));
      }
    case Erase(j) =>
      if IsSlot(j) { SlotOfSetSlot(b.block, j, i, size, Filled(size, 0)); }
    case FileLoad(j, _, loaded) =>
      if IsSlot(j) { SlotOfSetSlot(b.block, j, i, size, loaded); }
    case _ =>
  }

  lemma ExecKeepsSizes(b: Bank, c: Command, inProgram: bool, size: nat)
    requires Sized(b, size) && WellSized(c, size)
    ensures Sized(Exec(b, c, inProgram, size).0, size)
  {
  }

  // ---------- runs ----------

  /** The bank and OptionErrorSkip: 0 to stop at errors, -1 to ignore them, n to skip them for n statements. */
  datatype Session = Session(bank: Bank, skip: int)

  /**
   One statement, at the prompt or inside a program, or the return to the prompt that ends a
   program and every line typed there.
   */
  datatype Step = Ram(c: Command, inProgram: bool) | OnError(skip: int) | Other(fails: bool) | ToPrompt

  function CountedDown(s: Session): Session {
    s.(skip := if s.skip > 0 then s.skip - 1 else s.skip)
  }

  /** The prompt points ProgMemory back at the flash program. */
  function AtPrompt(s: Session): Session {
    s.(bank := s.bank.(prog := FlashProgram, flashLoad := 0))
  }

  /** error(): the next statement if errors are skipped, else the prompt. */
  function AfterError(s: Session): Session {
    if s.skip != 0 then CountedDown(s) else AtPrompt(s)
  }

  predicate Runnable(step: Step, size: nat) {
    step.Ram? ==> WellSized(step.c, size)
  }

  predicate AllRunnable(steps: seq<Step>, size: nat) {
    forall k :: 0 <= k < |steps| ==> Runnable(steps[k], size)
  }

  /** RUN clears the skip count before the program starts. */
  function Do(s: Session, step: Step, size: nat): (t: Session)
    requires Sized(s.bank, size) && Runnable(step, size)
    ensures Sized(t.bank, size)
  {
    match step
    case Ram(c, inProgram) =>
      ExecKeepsSizes(s.bank, c, inProgram, size);
      var (b, e) := Exec(s.bank, c, inProgram, size);
      if e.Some? then AfterError(s.(bank := b))
      else CountedDown(Session(b, if c.Run? then 0 else s.skip))
    case OnError(skip) => CountedDown(s.(skip := skip))
    case Other(fails) => if fails then AfterError(s) else CountedDown(s)
    case ToPrompt => AtPrompt(s)
  }

  function DoAll(s: Session, steps: seq<Step>, size: nat): (t: Session)
    requires Sized(s.bank, size) && AllRunnable(steps, size)
    ensures Sized(t.bank, size)
    decreases |steps|
  {
    if steps == [] then s
    else Do(DoAll(s, steps[..|steps| - 1], size), steps[|steps| - 1], size)
  }

  predicate LeavesSlot(step: Step, i: int) {
    step.Ram? ==> !Writes(step.c, i)
  }

  lemma DoKeepsSlot(s: Session, step: Step, size: nat, i: int)
    requires Sized(s.bank, size) && IsSlot(i) && Runnable(step, size) && LeavesSlot(step, i)
    ensures Slot(Do(s, step, size).bank.block, i, size) == Slot(s.bank.block, i, size)
  {
    hide Exec, Slot;
    if step.Ram? {
      ExecKeepsOtherSlots(s.bank, step.c, step.inProgram, size, i);
    }
  }

  lemma {:induction false} RunKeepsSlot(s: Session, steps: seq<Step>, size: nat, i: int)
    requires Sized(s.bank, size) && IsSlot(i) && AllRunnable(steps, size)
    requires forall k :: 0 <= k < |steps| ==> LeavesSlot(steps[k], i)
    ensures Slot(DoAll(s, steps, size).bank.block, i, size) == Slot(s.bank.block, i, size)
    decreases |steps|
  {
    hide Do, Slot;
    if steps != [] {
      var before := steps[..|steps| - 1];
      RunKeepsSlot(s, before, size, i);
      DoKeepsSlot(DoAll(s, before, size), steps[|steps| - 1], size, i);
    }
  }

  // ---------- saving and loading ----------

  /** SAVE is refused exactly when the slot's first byte is set; otherwise the slot becomes the program. */
  lemma SaveStoresProgram(b: Bank, inProgram: bool, size: nat, i: int)
    requires Sized(b, size) && IsSlot(i)
    ensures var r := Exec(b, Save(i), inProgram, size);
            && (r.1.None? <==> Slot(b.block, i, size)[0] == 0)
            && Slot(r.0.block, i, size) == (if r.1.None? then Program(b, size) else Slot(b.block, i, size))
            && r.0.flash == b.flash
  {
    SlotOfSetSlot(b.block, i, i, size, Program(b, size));
  }

  /** ERASE leaves a slot of zeros that SAVE accepts again. */
  lemma EraseEmptiesSlot(b: Bank, inProgram: bool, size: nat, i: int)
    requires Sized(b, size) && IsSlot(i)
    ensures var (r, e) := Exec(b, Erase(i), inProgram, size);
            && e.None? && r.flash == b.flash && r.prog == b.prog && r.flashLoad == b.flashLoad
            && |r.block| == |b.block|
            && (forall k :: 0 <= k < size ==> Slot(r.block, i, size)[k] == 0)
            && Exec(r, Save(i), inProgram, size).1.None?
            && Slot(Exec(r, Save(i), inProgram, size).0.block, i, size) == Program(r, size)
  {
    SlotOfSetSlot(b.block, i, i, size, Filled(size, 0));
    var r := Exec(b, Erase(i), inProgram, size).0;
    hide Slot, SetSlot;
    SaveStoresProgram(r, inProgram, size, i);
  }

  /** ERASE ALL does so for every slot, and for the rest of the block. */
  lemma EraseAllEmptiesSlots(b: Bank, inProgram: bool, size: nat, i: int)
    requires Sized(b, size) && IsSlot(i)
    ensures var (r, e) := Exec(b, EraseAll, inProgram, size);
            && e.None? && r.flash == b.flash && r.prog == b.prog && r.flashLoad == b.flashLoad
            && |r.block| == |b.block| && (forall k :: 0 <= k < |r.block| ==> r.block[k] == 0)
            && (forall k :: 0 <= k < size ==> Slot(r.block, i, size)[k] == 0)
            && Exec(r, Save(i), inProgram, size).1.None?
            && Slot(Exec(r, Save(i), inProgram, size).0.block, i, size) == Program(r, size)
  {
    var r := Exec(b, EraseAll, inProgram, size).0;
    SaveStoresProgram(r, inProgram, size, i);
  }

  /** FILE LOAD fills the slot if its first byte is zero or overwriting was asked for; else nothing changes. */
  lemma FileLoadFillsSlot(b: Bank, inProgram: bool, size: nat, i: int, overwrite: bool, loaded: seq<octet>)
    requires Sized(b, size) && IsSlot(i) && |loaded| == size
    ensures var (r, e) := Exec(b, FileLoad(i, overwrite, loaded), inProgram, size);
            && (e.None? <==> Slot(b.block, i, size)[0] == 0 || overwrite)
            && (e.None? ==> Slot(r.block, i, size) == loaded)
            && (e.Some? ==> e == Some(AlreadyProgrammed) && r == b)
            && r.flash == b.flash && r.prog == b.prog && r.flashLoad == b.flashLoad
  {
    SlotOfSetSlot(b.block, i, i, size, loaded);
  }

  /** A slot number outside 1 to 5 is an error that changes nothing; RUN and CHAIN also take 0. */
  lemma BadSlotChangesNothing(b: Bank, c: Command, inProgram: bool, size: nat)
    requires Sized(b, size) && WellSized(c, size) && !c.EraseAll? && !c.ListAll?
    requires !(1 <= c.i <= 5) && !((c.Run? || c.Chain?) && c.i == 0)
    ensures Exec(b, c, inProgram, size).0 == b && Exec(b, c, inProgram, size).1.Some?
  {
  }

  /** RUN and CHAIN make slot i the program, or the flash program for 0; CHAIN only inside a program. */
  lemma LaunchSelectsProgram(b: Bank, c: Command, inProgram: bool, size: nat)
    requires Sized(b, size) && (c.Run? || c.Chain?) && 0 <= c.i <= 5
    ensures var (r, e) := Exec(b, c, inProgram, size);
            && (e.None? <==> c.Run? || inProgram)
            && (e.Some? ==> r == b)
            && (e.None? ==>
                  && r.block == b.block && r.flash == b.flash && r.flashLoad == c.i && Sized(r, size)
                  && Program(r, size) == if c.i == 0 then b.flash else Slot(b.block, c.i, size))
  {
  }

  /** LIST shows a slot and changes no byte of memory. */
  lemma ListKeepsMemory(b: Bank, c: Command, inProgram: bool, size: nat)
    requires Sized(b, size) && (c.List? || c.ListAll?)
    ensures var (r, e) := Exec(b, c, inProgram, size);
            && r.block == b.block && r.flash == b.flash && r.flashLoad == b.flashLoad
            && (e.None? <==> c.ListAll? || (1 <= c.i <= 5 && !c.tail.BadTail?))
            && (c.ListAll? ==> r == b)
  {
  }

  /** OVERWRITE stores the program unless the program is running out of the very slot it names. */
  lemma OverwriteStoresProgram(b: Bank, inProgram: bool, size: nat, i: int)
    requires Sized(b, size) && IsSlot(i)
    ensures var r := Exec(b, Overwrite(i), inProgram, size);
            && r.1.None? && r.0.flash == b.flash
            && (b.prog == RamSlot(i) ==> Slot(r.0.block, i, size) == Filled(size, 0))
            && (Slot(r.0.block, i, size) == Program(b, size)
                <==> b.prog != RamSlot(i) || Program(b, size) == Filled(size, 0))
  {
    var zeros := Filled(size, 0);
    var z := b.(block := SetSlot(b.block, i, size, zeros));
    SlotOfSetSlot(b.block, i, i, size, zeros);
    if b.prog.RamSlot? {
      SlotOfSetSlot(b.block, i, b.prog.slot, size, zeros);
    }
    SlotOfSetSlot(z.block, i, i, size, Program(z, size));
  }

  /** LOAD puts the slot into flash exactly when the slot does not start with an erased byte. */
  lemma LoadCopiesSlot(b: Bank, size: nat, i: int)
    requires Sized(b, size) && IsSlot(i)
    ensures var r := Exec(b, Load(i), false, size);
            && (r.0.flash == Slot(b.block, i, size) <==> Slot(b.block, i, size)[0] != 0xFF)
            && (r.1.None? <==> Slot(b.block, i, size)[0] != 0xFF)
            && (r.1.None? ==> r.0.flashLoad == 0)
            && r.0.block == b.block && r.0.prog == b.prog
  {
  }

  /** LOAD of a slot that starts with 0xFF leaves an empty program in flash, and an error; in a program it is refused. */
  lemma LoadOfErasedSlot(b: Bank, size: nat, i: int)
    requires Sized(b, size) && IsSlot(i) && Slot(b.block, i, size)[0] == 0xFF
    ensures var (r, e) := Exec(b, Load(i), false, size);
            && e == Some(FlashSlotEmpty) && r.block == b.block && r.prog == b.prog && |r.flash| == size
            && (forall k :: 0 <= k < size ==> r.flash[k] == if k < 3 then 0 else 0xFF)
    ensures Exec(b, Load(i), true, size) == (b, Some(InvalidInProgram))
  {
  }

  /**
   A flash program saved to slot i survives any run that does not write slot i, LOADs of other
   programs over the flash, errors and returns to the prompt included, and RAM LOAD i brings it
   back byte for byte, provided that it does not start with 0xFF.
   */
  lemma SavedProgramComesBack(s: Session, store: Command, inProgram: bool, between: seq<Step>, size: nat, i: int)
    requires Sized(s.bank, size) && IsSlot(i) && s.bank.prog.FlashProgram?
    requires store == Save(i) || store == Overwrite(i)
    requires Exec(s.bank, store, inProgram, size).1.None?
    requires AllRunnable(between, size) && forall k :: 0 <= k < |between| ==> LeavesSlot(between[k], i)
    ensures var flash := s.bank.flash;
            var b := DoAll(Do(s, Ram(store, inProgram), size), between, size).bank;
            var r := Exec(b, Load(i), false, size);
            && (r.0.flash == flash <==> flash[0] != 0xFF)
            && (r.1.None? <==> flash[0] != 0xFF)
  {
    hide Slot;
    SaveStoresProgram(s.bank, inProgram, size, i);
    OverwriteStoresProgram(s.bank, inProgram, size, i);
    var t := Do(s, Ram(store, inProgram), size);
    RunKeepsSlot(t, between, size, i);
    LoadCopiesSlot(DoAll(t, between, size).bank, size, i);
  }

  // ---------- where ProgMemory points ----------

  /** After ON ERROR SKIP n exactly the next n failing statements are skipped; the one after ends at the prompt. */
  lemma {:induction false} SkipLastsForStatements(s: Session, n: nat, k: nat, size: nat)
    requires Sized(s.bank, size) && s.bank.prog.RamSlot? && n > 0
    ensures AllRunnable(Filled(k, Other(true)), size)
    ensures var t := DoAll(Do(s, OnError(n + 1), size), Filled(k, Other(true)), size);
            && (t.bank.prog == s.bank.prog <==> k <= n)
            && t.skip == if k <= n then n - k else 0
    decreases k
  {
    if k > 0 {
      assert Filled(k, Other(true))[..k - 1] == Filled(k - 1, Other(true));
      SkipLastsForStatements(s, n, k - 1, size);
    }
  }

  /** Steps that point ProgMemory at slot n: RUN, CHAIN, and a LIST whose error is skipped. */
  predicate PointsAt(s: Session, step: Step, n: nat) {
    step.Ram? && IsSlot(n) &&
    match step.c
    case List(i, tail) => i == n && tail.BadTail? && s.skip != 0
    case Chain(i) => i == n && step.inProgram
    case Run(i) => i == n
    case _ => false
  }

  /** Steps that move it away from slot n: the prompt, and LIST, RUN and CHAIN for another program. */
  predicate MovesFrom(s: Session, step: Step, n: nat, size: nat)
    requires Sized(s.bank, size) && Runnable(step, size)
  {
    match step
    case OnError(_) => false
    case Other(fails) => fails && s.skip == 0
    case ToPrompt => true
    case Ram(c, inProgram) =>
      if c.List? && IsSlot(c.i) && c.tail.BadTail? then s.skip == 0 || c.i != n
      else if Exec(s.bank, c, inProgram, size).1.Some? then s.skip == 0
      else c.List? || ((c.Run? || c.Chain?) && c.i != n)
  }

  lemma DoMovesPointer(s: Session, step: Step, size: nat, n: nat)
    requires Sized(s.bank, size) && Runnable(step, size)
    ensures Do(s, step, size).bank.prog == RamSlot(n)
       <==> PointsAt(s, step, n) || (s.bank.prog == RamSlot(n) && !MovesFrom(s, step, n, size))
  {
    hide Slot, SetSlot;
  }

  /** Step k of a run points ProgMemory at slot n and no later step moves it away. */
  ghost predicate PointedLast(s: Session, steps: seq<Step>, size: nat, n: nat, k: int)
    requires Sized(s.bank, size) && AllRunnable(steps, size)
  {
    && 0 <= k < |steps| && PointsAt(DoAll(s, steps[..k], size), steps[k], n)
    && forall j :: k < j < |steps| ==> !MovesFrom(DoAll(s, steps[..j], size), steps[j], n, size)
  }

  /**
   After any run from a session on the flash program, ProgMemory points at slot n exactly when
   some step pointed it there and neither the prompt nor another program came after it.
   */
  lemma {:induction false} PointerIsAtSlotIff(s: Session, steps: seq<Step>, size: nat, n: nat)
    requires Sized(s.bank, size) && AllRunnable(steps, size) && s.bank.prog.FlashProgram?
    ensures DoAll(s, steps, size).bank.prog == RamSlot(n) <==> exists k :: PointedLast(s, steps, size, n, k)
    decreases |steps|
  {
    hide Do, PointsAt, MovesFrom, Sized, Runnable;
    if steps != [] {
      var last := |steps| - 1;
      var before := steps[..last];
      PointerIsAtSlotIff(s, before, size, n);
      DoMovesPointer(DoAll(s, before, size), steps[last], size, n);
      forall k | 0 <= k < last
        ensures PointedLast(s, steps, size, n, k)
           <==> PointedLast(s, before, size, n, k) && !MovesFrom(DoAll(s, before, size), steps[last], n, size)
      {
        PointedLastSnoc(s, steps, size, n, k);
      }
      assert PointedLast(s, steps, size, n, last) <==> PointsAt(DoAll(s, before, size), steps[last], n);
      assert forall k :: PointedLast(s, before, size, n, k) ==> 0 <= k < last;
    }
  }

  lemma PointedLastSnoc(s: Session, steps: seq<Step>, size: nat, n: nat, k: nat)
    requires Sized(s.bank, size) && AllRunnable(steps, size) && k + 1 < |steps|
    ensures var last, before := |steps| - 1, steps[..|steps| - 1];
            (PointedLast(s, steps, size, n, k)
            <==> PointedLast(s, before, size, n, k) && !MovesFrom(DoAll(s, before, size), steps[last], n, size))
  {
    hide Do, DoAll, PointsAt, MovesFrom, Sized, Runnable;
    var last := |steps| - 1;
    var before := steps[..last];
    assert forall j :: 0 <= j <= last ==> before[..j] == steps[..j];
  }

  ghost predicate NeverPoints(s: Session, steps: seq<Step>, size: nat, n: nat)
    requires Sized(s.bank, size) && AllRunnable(steps, size)
  {
    forall k :: 0 <= k < |steps| ==> !PointsAt(DoAll(s, steps[..k], size), steps[k], n)
  }

  ghost predicate NeverMoves(s: Session, steps: seq<Step>, size: nat, n: nat)
    requires Sized(s.bank, size) && AllRunnable(steps, size)
  {
    forall k :: 0 <= k < |steps| ==> !MovesFrom(DoAll(s, steps[..k], size), steps[k], n, size)
  }

  lemma {:induction false} PointerStaysIff(s: Session, steps: seq<Step>, size: nat, n: nat)
    requires Sized(s.bank, size) && AllRunnable(steps, size) && NeverPoints(s, steps, size, n)
    ensures DoAll(s, steps, size).bank.prog == RamSlot(n) <==> s.bank.prog == RamSlot(n) && NeverMoves(s, steps, size, n)
    decreases |steps|
  {
    hide Do, PointsAt, MovesFrom, Sized, Runnable;
    if steps != [] {
      var last := |steps| - 1;
      var before := steps[..last];
      assert forall j :: 0 <= j <= last ==> before[..j] == steps[..j];
      PointerStaysIff(s, before, size, n);
      DoMovesPointer(DoAll(s, before, size), steps[last], size, n);
      assert NeverMoves(s, steps, size, n)
        <==> NeverMoves(s, before, size, n) && !MovesFrom(DoAll(s, before, size), steps[last], n, size);
    }
  }

  /**
   LIST of slot j with a bad second argument, then statements that neither point ProgMemory at slot
   j themselves nor write slots i and j, then SAVE i to a free slot. The pointer is still at slot j,
   and the SAVE stores slot j, exactly when the error of the LIST was skipped and nothing, the
   prompt included, moved the pointer since; otherwise the SAVE stores what the pointer shows then.
   */
  lemma SaveAfterBadList(s: Session, inProgram: bool, between: seq<Step>, size: nat, i: int, j: int)
    requires Sized(s.bank, size) && AllRunnable(between, size) && s.bank.prog.FlashProgram?
    requires IsSlot(i) && IsSlot(j) && i != j && Slot(s.bank.block, i, size)[0] == 0
    requires forall k :: 0 <= k < |between| ==> LeavesSlot(between[k], i) && LeavesSlot(between[k], j)
    requires NeverPoints(Do(s, Ram(List(j, BadTail), inProgram), size), between, size, j)
    ensures var l := Do(s, Ram(List(j, BadTail), inProgram), size);
            var m := DoAll(l, between, size);
            var saved := Do(m, Ram(Save(i), inProgram), size).bank.block;
            && (m.bank.prog == RamSlot(j) <==> s.skip != 0 && NeverMoves(l, between, size, j))
            && Slot(saved, i, size) == (if s.skip != 0 && NeverMoves(l, between, size, j)
                                        then Slot(s.bank.block, j, size) else Program(m.bank, size))
  {
    var l := Do(s, Ram(List(j, BadTail), inProgram), size);
    assert l.bank.block == s.bank.block && (l.bank.prog == RamSlot(j) <==> s.skip != 0);
    PointerStaysIff(l, between, size, j);
    RunKeepsSlot(l, between, size, i);
    RunKeepsSlot(l, between, size, j);
    var m := DoAll(l, between, size);
    hide Slot, NeverMoves, NeverPoints, DoAll;
    SaveStoresProgram(m.bank, inProgram, size, i);
  }

  /** In a program ON ERROR SKIP, RAM LIST j with a bad argument and RAM SAVE i store slot j. */
  lemma SkippedBadListMisleadsSave(b: Bank, size: nat, i: int, j: int)
    requires Sized(b, size) && b.prog.FlashProgram?
    requires IsSlot(i) && IsSlot(j) && i != j && Slot(b.block, i, size)[0] == 0
    ensures var s := Do(Session(b, 0), OnError(2), size);
            var t := Do(Do(s, Ram(List(j, BadTail), true), size), Ram(Save(i), true), size);
            Slot(t.bank.block, i, size) == Slot(b.block, j, size)
  {
    var s := Do(Session(b, 0), OnError(2), size);
    var l := Do(s, Ram(List(j, BadTail), true), size);
    assert DoAll(l, [], size) == l;
    SaveAfterBadList(s, true, [], size, i, j);
  }

  /** Typed at the prompt, without ON ERROR, the same LIST and SAVE store the flash program. */
  lemma PromptRecoversFromBadList(b: Bank, size: nat, i: int, j: int)
    requires Sized(b, size) && b.prog.FlashProgram?
    requires IsSlot(i) && IsSlot(j) && i != j && Slot(b.block, i, size)[0] == 0
    ensures var l := Do(Session(b, 0), Ram(List(j, BadTail), false), size);
            var t := Do(l, Ram(Save(i), false), size);
            Slot(t.bank.block, i, size) == b.flash
  {
    var l := Do(Session(b, 0), Ram(List(j, BadTail), false), size);
    hide Slot;
    SaveStoresProgram(l.bank, false, size, i);
  }

  /** What RAM LIST calls available. */
  predicate Available(image: seq<octet>) {
    forall k :: 0 <= k < |image| ==> image[k] == 0
  }

  /** SAVE accepts every slot LIST calls available, and also overwrites some it calls in use. */
  lemma SaveAcceptsMoreThanListSays(b: Bank, size: nat, i: int)
    requires Sized(b, size) && IsSlot(i)
    ensures Available(Slot(b.block, i, size)) ==> Exec(b, Save(i), false, size).1.None?
    ensures var b' := b.(block := SetSlot(b.block, i, size, [0] + Filled(size - 1, 1)));
            !Available(Slot(b'.block, i, size)) && Exec(b', Save(i), false, size).1.None?
  {
    var image := [0] + Filled(size - 1, 1);
    SlotOfSetSlot(b.block, i, i, size, image);
    assert image[1] == 1;
  }
}
