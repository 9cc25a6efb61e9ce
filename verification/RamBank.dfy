/** The RAM command at work on the PSRAM block and the flash program area, in place. */
module RamBank {
  import opened Wrappers
  import opened RamSlots

  /** Programming can only clear bits. */
  function Programmed(was: octet, data: octet): octet {
    was & data
  }

  lemma ProgrammedOverErased(data: octet)
    ensures Programmed(0xFF, data) == data
  {
  }

  lemma SliceOfSlice(s: seq<octet>, o: nat, n: nat, k: nat, m: nat)
    requires o + n <= |s| && k + m <= n
    ensures s[o..o + n][k..k + m] == s[o + k..o + k + m]
  {
    var t, u := s[o..o + n][k..k + m], s[o + k..o + k + m];
    forall x | 0 <= x < m
      ensures t[x] == u[x]
    {
      assert t[x] == s[o..o + n][k + x] == s[o + (k + x)];
      assert u[x] == s[(o + k) + x];
    }
  }

  lemma SlotPage(block: seq<octet>, i: int, size: nat, k: nat)
    requires IsSlot(i) && |block| >= MAXRAMSLOTS * size && k + PAGE <= size
    ensures Offset(i, size) + k + PAGE <= |block|
    ensures Slot(block, i, size)[k..k + PAGE] == block[Offset(i, size) + k..Offset(i, size) + k + PAGE]
  {
    var o := Offset(i, size);
    hide Offset;
    SliceOfSlice(block, o, size, k, PAGE);
  }

  lemma AvailableByBytes(block: seq<octet>, i: int, size: nat)
    requires IsSlot(i) && |block| >= MAXRAMSLOTS * size
    ensures Available(Slot(block, i, size))
       <==> forall j :: Offset(i, size) <= j < Offset(i, size) + size ==> block[j] == 0
  {
    var o, image := Offset(i, size), Slot(block, i, size);
    assert forall k :: 0 <= k < size ==> image[k] == block[o + k];
    if Available(image) {
      forall j | o <= j < o + size
        ensures block[j] == 0
      {
        assert image[j - o] == 0;
      }
    }
  }

  class PsramBank {
    const block: array<octet>
    const flash: array<octet>
    const size: nat
    var prog: ProgPointer
    var flashLoad: nat

    ghost function View(): Bank
      reads this, block, flash
    {
      Bank(block[..], flash[..], prog, flashLoad)
    }

    ghost predicate Valid()
      reads this, block, flash
    {
      block != flash && Sized(View(), size)
    }

    constructor (psram: array<octet>, programArea: array<octet>)
      requires psram != programArea && programArea.Length > 0 && programArea.Length % PAGE == 0
      requires psram.Length >= MAXRAMSLOTS * programArea.Length
      ensures Valid() && block == psram && flash == programArea
      ensures View() == Bank(psram[..], programArea[..], FlashProgram, 0)
    {
      block, flash, size := psram, programArea, programArea.Length;
      prog, flashLoad := FlashProgram, 0;
    }

    method MemSet(i: int, v: octet)
      requires Valid() && IsSlot(i)
      modifies block
      ensures block[..] == SetSlot(old(block[..]), i, size, Filled(size, v))
    {
      var o := Offset(i, size);
      forall k | o <= k < o + size {
        block[k] := v;
      }
    }

    /** memcpy of the program ProgMemory points at into slot i. */
    method CopyProgram(i: int)
      requires Valid() && IsSlot(i)
      modifies block
      ensures block[..] == SetSlot(old(block[..]), i, size, Program(old(View()), size))
    {
      var o := Offset(i, size);
      if prog.FlashProgram? {
        forall k | 0 <= k < size {
          block[o + k] := flash[k];
        }
      } else {
        var p := Offset(prog.slot, size);
        forall k | 0 <= k < size {
          block[o + k] := block[p + k];
        }
      }
    }

    method FlashErase()
      requires Valid()
      modifies flash
      ensures flash[..] == Filled(size, 0xFF)
    {
      forall k | 0 <= k < flash.Length {
        flash[k] := 0xFF;
      }
    }

    method FlashProgramPage(offset: nat, data: array<octet>, n: nat)
      requires Valid() && offset + n <= flash.Length && n <= data.Length && data != flash
      modifies flash
      ensures forall k :: 0 <= k < flash.Length ==>
                flash[k] == if offset <= k < offset + n then Programmed(old(flash[k]), data[k - offset]) else old(flash[k])
    {
      forall k | 0 <= k < n {
        flash[offset + k] := Programmed(flash[offset + k], data[k]);
      }
    }

    /** The check after the erase; it never fails on a flash that erases. */
    method CheckErased() returns (erased: bool)
      requires Valid()
      ensures erased <==> flash[..] == Filled(size, 0xFF)
    {
      var k := 0;
      while k < size
        invariant k <= size
        invariant forall j :: 0 <= j < k ==> flash[j] == 0xFF
      {
        if flash[k] != 0xFF {
          assert flash[..][k] != Filled(size, 0xFF)[k];
          return false;
        }
        k := k + 1;
      }
      erased := true;
    }

    /** FlashWriteInit, erase, three zero bytes and FlashWriteClose: one page, padded with 0xFF. */
    method WriteEmptyProgram()
      requires Valid()
      modifies flash
      ensures flash[..] == EmptyProgram(size)
    {
      FlashErase();
      var page := new octet[256](k => if k < 3 then 0 else 0xFF);
      FlashProgramPage(0, page, 256);
      forall k | 0 <= k < size
        ensures flash[k] == EmptyProgram(size)[k]
      {
        ProgrammedOverErased(0);
        ProgrammedOverErased(0xFF);
      }
    }

    /** One page from the block into the write buffer. */
    method ReadPage(q: nat, writebuff: array<octet>)
      requires Valid() && writebuff.Length == PAGE && writebuff != block && writebuff != flash
      requires q + PAGE <= block.Length
      modifies writebuff
      ensures writebuff[..] == block[q..q + PAGE]
    {
      var j := 0;
      while j < PAGE
        invariant 0 <= j <= PAGE
        invariant forall m :: 0 <= m < j ==> writebuff[m] == block[q + m]
      {
        writebuff[j] := block[q + j];
        j := j + 1;
      }
    }

    /** Programming a page of erased flash stores the page. */
    method ProgramErasedPage(k: nat, writebuff: array<octet>, ghost image: seq<octet>)
      requires Valid() && writebuff.Length == PAGE && writebuff != flash && k + PAGE <= size && |image| == size
      requires writebuff[..] == image[k..k + PAGE]
      requires flash[..] == image[..k] + Filled(size - k, 0xFF)
      modifies flash
      ensures flash[..] == image[..k + PAGE] + Filled(size - k - PAGE, 0xFF)
    {
      hide Programmed;
      FlashProgramPage(k, writebuff, PAGE);
      forall m | 0 <= m < size
        ensures flash[m] == if m < k + PAGE then image[m] else 0xFF
      {
        if k <= m < k + PAGE {
          ProgrammedOverErased(image[m]);
          assert old(flash[..])[m] == 0xFF;
          assert writebuff[..][m - k] == image[m];
        } else {
          assert flash[m] == old(flash[..])[m];
        }
      }
    }

    /** Copies slot i to the erased flash area page by page through a write buffer. */
    method ProgramSlot(i: int)
      requires Valid() && IsSlot(i) && flash[..] == Filled(size, 0xFF)
      modifies flash
      ensures flash[..] == Slot(block[..], i, size)
    {
      var o := Offset(i, size);
      ghost var image := Slot(block[..], i, size);
      var writebuff := new octet[PAGE];
      var k := 0;
      hide Slot, Offset;
      while k < size
        invariant 0 <= k <= size && k % PAGE == 0
        invariant flash[..] == image[..k] + Filled(size - k, 0xFF)
        decreases size - k
      {
        SlotPage(block[..], i, size, k);
        ReadPage(o + k, writebuff);
        ProgramErasedPage(k, writebuff, image);
        k := k + PAGE;
      }
    }

    method LoadSlot(i: int, inProgram: bool) returns (e: Option<Error>)
      requires Valid()
      modifies this`flashLoad, flash
      ensures Valid() && (View(), e) == Exec(old(View()), Load(i), inProgram, size)
    {
      if inProgram { return Some(InvalidInProgram); }
      if !IsSlot(i) { return Some(OutOfRange); }
      FlashErase();
      var erased := CheckErased();
      if !erased { return Some(EraseError); }
      if block[Offset(i, size)] == 0xFF {
        WriteEmptyProgram();
        return Some(FlashSlotEmpty);
      }
      ProgramSlot(i);
      flashLoad := 0;
      e := None;
    }

    method Launched(i: int) returns (e: Option<Error>)
      requires Valid()
      modifies this`prog, this`flashLoad
      ensures Valid() && (View(), e) == Launch(old(View()), i)
    {
      if i != 0 && !IsSlot(i) { return Some(OutOfRange); }
      prog := if i == 0 then FlashProgram else RamSlot(i);
      flashLoad := i;
      e := None;
    }

    method EraseAllSlots()
      requires Valid()
      modifies block
      ensures View() == Exec(old(View()), EraseAll, false, size).0
    {
      ghost var was := View();
      forall k | 0 <= k < block.Length {
        block[k] := 0;
      }
      assert View() == was.(block := Filled(|was.block|, 0));
    }

    method OverwriteSlot(i: int) returns (e: Option<Error>)
      requires Valid()
      modifies block
      ensures (View(), e) == Exec(old(View()), Overwrite(i), false, size)
    {
      if !IsSlot(i) { return Some(OutOfRange); }
      ghost var was := View();
      MemSet(i, 0);
      ghost var z := was.(block := SetSlot(was.block, i, size, Filled(size, 0)));
      assert View() == z;
      CopyProgram(i);
      assert View() == z.(block := SetSlot(z.block, i, size, Program(z, size)));
      e := None;
    }

    method LoadFile(i: int, overwrite: bool, loaded: seq<octet>) returns (e: Option<Error>)
      requires Valid() && |loaded| == size
      modifies block
      ensures (View(), e) == Exec(old(View()), FileLoad(i, overwrite, loaded), false, size)
    {
      if !IsSlot(i) { return Some(OutOfRange); }
      var o := Offset(i, size);
      if block[o] != 0 && !overwrite { return Some(AlreadyProgrammed); }
      ghost var was := View();
      MemSet(i, 0xFF);
      forall k | 0 <= k < size {
        block[o + k] := loaded[k];
      }
      assert View() == was.(block := SetSlot(was.block, i, size, loaded));
      e := None;
    }

    method Execute(c: Command, inProgram: bool) returns (e: Option<Error>)
      requires Valid() && WellSized(c, size)
      modifies this`prog, this`flashLoad, block, flash
      ensures Valid() && (View(), e) == Exec(old(View()), c, inProgram, size)
    {
      ExecKeepsSizes(View(), c, inProgram, size);
      e := None;
      match c
      case Save(i) =>
        if !IsSlot(i) { return Some(OutOfRange); }
        if block[Offset(i, size)] != 0 { return Some(AlreadyProgrammed); }
        CopyProgram(i);
      case Overwrite(i) =>
        e := OverwriteSlot(i);
      case Erase(i) =>
        if !IsSlot(i) { return Some(OutOfRange); }
        MemSet(i, 0);
      case EraseAll =>
        EraseAllSlots();
      case ListAll =>
      case List(i, tail) =>
        if !IsSlot(i) { return Some(OutOfRange); }
        prog := RamSlot(i);
        if tail.BadTail? { return Some(SyntaxError); }
        prog := FlashProgram;
      case FileLoad(i, overwrite, loaded) =>
        e := LoadFile(i, overwrite, loaded);
      case Load(i) =>
        e := LoadSlot(i, inProgram);
      case Chain(i) =>
        if !inProgram { return Some(InvalidAtPrompt); }
        e := Launched(i);
      case Run(i) =>
        e := Launched(i);
    }

    /** Whether any word of four bytes of slot i is not zero. */
    method SlotInUse(i: int) returns (found: bool)
      requires Valid() && IsSlot(i)
      ensures found <==> !Available(Slot(block[..], i, size))
    {
      var o := Offset(i, size);
      AvailableByBytes(block[..], i, size);
      hide Slot, Offset, Available;
      var k := 0;
      while k < size
        invariant 0 <= k <= size && k % 4 == 0
        invariant forall j :: o <= j < o + k ==> block[j] == 0
      {
        if block[o + k] != 0 || block[o + k + 1] != 0 || block[o + k + 2] != 0 || block[o + k + 3] != 0 {
          return true;
        }
        k := k + 4;
      }
      found := false;
    }

    /** RAM LIST without arguments: which slots hold anything. */
    method SlotsInUse() returns (used: seq<bool>)
      requires Valid()
      ensures |used| == MAXRAMSLOTS
      ensures forall i :: 1 <= i <= MAXRAMSLOTS ==> (used[i - 1] <==> !Available(Slot(block[..], i, size)))
    {
      hide Slot, Offset, Available;
      used := [];
      var i := 1;
      while i <= MAXRAMSLOTS
        invariant 1 <= i <= MAXRAMSLOTS + 1 && |used| == i - 1
        invariant forall j :: 1 <= j < i ==> (used[j - 1] <==> !Available(Slot(block[..], j, size)))
      {
        var found := SlotInUse(i);
        used := used + [found];
        i := i + 1;
      }
    }
  }
}
