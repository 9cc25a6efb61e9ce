/**
 The sparse UF2 file that tools/build_lfs.py writes for a filesystem image, and the flash that
 results when its blocks are applied.
 */
module Uf2Image {
  import opened Bytes
  import opened Wrappers

  const PAYLOAD := 256
  const BLOCK := 512
  const MAGIC1 := 0x0A32_4655
  const MAGIC2 := 0x9E5D_5157
  const MAGIC_END := 0x0AB1_6F30
  const FAMILY_PRESENT := 0x0000_2000
  const FAMILY_RP2350_ARM_S := 0xE48B_FF59
  const ERASED: byte := 0xFF

  // ---------- layout of the flash ----------

  const FLASH_SIZE := 16 * 1024 * 1024
  const XIP_BASE := 0x1000_0000

  /** TOP_OF_SYSTEM_FLASH of a board variant. */
  function LfsOffset(hdmiUsb: bool): nat {
    (if hdmiUsb then 1056 else 1024) * 1024 + 4096 + 16384 + (3 + 1) * (164 * 1024)
  }

  /** The filesystem region starts on an erase block, is a whole number of blocks and ends with the flash. */
  lemma LayoutIsAligned(hdmiUsb: bool)
    ensures LfsOffset(hdmiUsb) == if hdmiUsb then 0x1B_1000 else 0x1A_9000
    ensures LfsOffset(hdmiUsb) % 4096 == 0 && (FLASH_SIZE - LfsOffset(hdmiUsb)) % 4096 == 0
    ensures !hdmiUsb ==> (FLASH_SIZE - LfsOffset(hdmiUsb)) / 4096 == 3671
  {
  }

  // ---------- pages and blocks ----------

  function PageCount(image: seq<byte>): nat {
    (|image| + PAYLOAD - 1) / PAYLOAD
  }

  /** What the flash is to hold at offset x. */
  function Wanted(image: seq<byte>, x: nat): byte {
    if x < |image| then image[x] else ERASED
  }

  /** Page i of the image, filled up with 0xFF. */
  function Page(image: seq<byte>, i: nat): (s: seq<byte>)
    ensures |s| == PAYLOAD && forall k :: 0 <= k < PAYLOAD ==> s[k] == Wanted(image, i * PAYLOAD + k)
  {
    seq<byte>(PAYLOAD, (k: int) requires 0 <= k => Wanted(image, i * PAYLOAD + k))
  }

  predicate IsErased(page: seq<byte>) {
    page == Filled(PAYLOAD, ERASED)
  }

  /** The indices below n of the pages that are not erased, ascending. */
  function Populated(image: seq<byte>, n: nat): seq<nat> {
    if n == 0 then []
    else Populated(image, n - 1) + if IsErased(Page(image, n - 1)) then [] else [n - 1]
  }

  function LittleEndian32(n: nat): (s: seq<byte>)
    ensures |s| == 4
  {
    [n % 0x100, n / 0x100 % 0x100, n / 0x100 / 0x100 % 0x100, n / 0x100 / 0x100 / 0x100 % 0x100]
  }

  function FromLittleEndian32(s: seq<byte>, p: nat): nat
    requires p + 4 <= |s|
  {
    s[p] as int + 0x100 * (s[p + 1] as int + 0x100 * (s[p + 2] as int + 0x100 * (s[p + 3] as int)))
  }

  function Header(addr: nat, sequence: nat, total: nat): (s: seq<byte>)
    ensures |s| == 32
  {
    LittleEndian32(MAGIC1) + LittleEndian32(MAGIC2) + LittleEndian32(FAMILY_PRESENT) + LittleEndian32(addr) + LittleEndian32(PAYLOAD) + LittleEndian32(sequence) + LittleEndian32(total)
    + LittleEndian32(FAMILY_RP2350_ARM_S)
  }

  function BlockBytes(addr: nat, sequence: nat, total: nat, page: seq<byte>): (s: seq<byte>)
    requires |page| == PAYLOAD
    ensures |s| == BLOCK
  {
    Header(addr, sequence, total) + page + Filled(476 - PAYLOAD, 0) + LittleEndian32(MAGIC_END)
  }

  /** The file: one block for each of the first k populated pages. */
  function File(image: seq<byte>, base: nat, k: nat): (s: seq<seq<byte>>)
    requires k <= |Populated(image, PageCount(image))|
    ensures |s| == k && forall j :: 0 <= j < k ==> |s[j]| == BLOCK
  {
    if k == 0 then [] else
    var pop := Populated(image, PageCount(image));
    File(image, base, k - 1) + [BlockBytes(base + pop[k - 1] * PAYLOAD, k - 1, |pop|, Page(image, pop[k - 1]))]
  }

  // ---------- writing the file ----------

  method LjustPage(image: seq<byte>, i: nat) returns (chunk: seq<byte>)
    requires i < PageCount(image)
    ensures chunk == Page(image, i)
  {
    var end := if (i + 1) * PAYLOAD < |image| then (i + 1) * PAYLOAD else |image|;
    chunk := image[i * PAYLOAD..end];
    chunk := chunk + Filled(PAYLOAD - |chunk|, ERASED);
  }

  lemma ErasedMeans(page: seq<byte>)
    ensures IsErased(page) <==> page == Filled(PAYLOAD, ERASED)
  {
  }

  /** emit_uf2; an address that does not fit a 32-bit field is an error. */
  method EmitUf2(image: seq<byte>, base: nat) returns (r: Option<seq<seq<byte>>>)
    ensures var pop := Populated(image, PageCount(image));
            r == if forall j :: 0 <= j < |pop| ==> base + pop[j] * PAYLOAD < 0x1_0000_0000
                 then Some(File(image, base, |pop|)) else None
  {
    hide Page, BlockBytes, IsErased;
    var total := PageCount(image);
    var populated: seq<(nat, seq<byte>)> := [];
    var i := 0;
    while i < total
      invariant i <= total
      invariant |populated| == |Populated(image, i)|
      invariant forall j :: 0 <= j < |populated| ==> populated[j] == (Populated(image, i)[j], Page(image, Populated(image, i)[j]))
    {
      var chunk := LjustPage(image, i);
      ErasedMeans(chunk);
      if chunk != Filled(PAYLOAD, ERASED) {
        populated := populated + [(i, chunk)];
      }
      i := i + 1;
    }
    ghost var pop := Populated(image, total);
    var n := |populated|;
    var blocks := [];
    var sequence := 0;
    while sequence < n
      invariant sequence <= n && blocks == File(image, base, sequence)
      invariant forall j :: 0 <= j < sequence ==> base + pop[j] * PAYLOAD < 0x1_0000_0000
    {
      var (index, chunk) := populated[sequence];
      assert index == pop[sequence];
      var addr := base + index * PAYLOAD;
      if addr >= 0x1_0000_0000 {
        assert base + pop[sequence] * PAYLOAD >= 0x1_0000_0000;
        return None;
      }
      blocks := blocks + [BlockBytes(addr, sequence, n, chunk)];
      sequence := sequence + 1;
    }
    r := Some(blocks);
  }

  // ---------- applying the file ----------

  lemma LittleEndian32RoundTrip(n: nat, before: seq<byte>, after: seq<byte>)
    requires n < 0x1_0000_0000
    ensures FromLittleEndian32(before + LittleEndian32(n) + after, |before|) == n
  {
    var n1 := n / 0x100;
    var n2 := n1 / 0x100;
    var n3 := n2 / 0x100;
    assert n3 % 0x100 == n3;
    var s, p, b := before + LittleEndian32(n) + after, |before|, LittleEndian32(n);
    assert s[p] == b[0] && s[p + 1] == b[1] && s[p + 2] == b[2] && s[p + 3] == b[3];
  }

  /** A block as a loader reads it; blocks with a wrong magic number are not blocks. */
  datatype Loaded = Loaded(addr: nat, size: nat, sequence: nat, total: nat, data: seq<byte>)

  function Load(b: seq<byte>): Option<Loaded>
    requires |b| == BLOCK
  {
    var size := FromLittleEndian32(b, 16);
    if FromLittleEndian32(b, 0) != MAGIC1 || FromLittleEndian32(b, 4) != MAGIC2 || FromLittleEndian32(b, 508) != MAGIC_END || 32 + size > 508 then None
    else Some(Loaded(FromLittleEndian32(b, 12), size, FromLittleEndian32(b, 20), FromLittleEndian32(b, 24), b[32..32 + size]))
  }

  lemma LoadedBlock(addr: nat, sequence: nat, total: nat, page: seq<byte>)
    requires |page| == PAYLOAD && addr < 0x1_0000_0000 && sequence < 0x1_0000_0000 && total < 0x1_0000_0000
    ensures Load(BlockBytes(addr, sequence, total, page)) == Some(Loaded(addr, PAYLOAD, sequence, total, page))
  {
    hide LittleEndian32, FromLittleEndian32;
    var b := BlockBytes(addr, sequence, total, page);
    var h := Header(addr, sequence, total);
    assert b == h + (page + Filled(476 - PAYLOAD, 0) + LittleEndian32(MAGIC_END));
    var a := LittleEndian32(MAGIC1) + LittleEndian32(MAGIC2) + LittleEndian32(FAMILY_PRESENT);
    LittleEndian32RoundTrip(MAGIC1, [], b[4..]);
    assert b == [] + LittleEndian32(MAGIC1) + b[4..];
    LittleEndian32RoundTrip(MAGIC2, LittleEndian32(MAGIC1), b[8..]);
    assert b == LittleEndian32(MAGIC1) + LittleEndian32(MAGIC2) + b[8..];
    LittleEndian32RoundTrip(addr, a, b[16..]);
    assert b == a + LittleEndian32(addr) + b[16..];
    LittleEndian32RoundTrip(PAYLOAD, a + LittleEndian32(addr), b[20..]);
    assert b == a + LittleEndian32(addr) + LittleEndian32(PAYLOAD) + b[20..];
    LittleEndian32RoundTrip(sequence, a + LittleEndian32(addr) + LittleEndian32(PAYLOAD), b[24..]);
    assert b == a + LittleEndian32(addr) + LittleEndian32(PAYLOAD) + LittleEndian32(sequence) + b[24..];
    LittleEndian32RoundTrip(total, a + LittleEndian32(addr) + LittleEndian32(PAYLOAD) + LittleEndian32(sequence), b[28..]);
    assert b == a + LittleEndian32(addr) + LittleEndian32(PAYLOAD) + LittleEndian32(sequence) + LittleEndian32(total) + b[28..];
    LittleEndian32RoundTrip(MAGIC_END, b[..508], []);
    assert b == b[..508] + LittleEndian32(MAGIC_END) + [];
    assert b[32..32 + PAYLOAD] == page;
  }

  lemma {:induction false} PopulatedPages(image: seq<byte>, n: nat)
    ensures var pop := Populated(image, n);
            && |pop| <= n
            && (forall j :: 0 <= j < |pop| ==> pop[j] < n && !IsErased(Page(image, pop[j])))
            && (forall j, k :: 0 <= j < k < |pop| ==> pop[j] < pop[k])
            && (forall i :: 0 <= i < n && !IsErased(Page(image, i)) ==> i in pop)
    decreases n
  {
    hide IsErased, Page;
    if n > 0 {
      PopulatedPages(image, n - 1);
    }
  }

  lemma {:induction false} FileAt(image: seq<byte>, base: nat, k: nat, j: nat)
    requires j < k <= |Populated(image, PageCount(image))|
    ensures var pop := Populated(image, PageCount(image));
            File(image, base, k)[j] == BlockBytes(base + pop[j] * PAYLOAD, j, |pop|, Page(image, pop[j]))
    decreases k
  {
    hide BlockBytes, Page, Populated;
    if j < k - 1 {
      FileAt(image, base, k - 1, j);
    }
  }

  /** The fixed bytes of a block: the three magic numbers, flags, family, and zeros behind the page. */
  lemma BlockLayout(addr: nat, sequence: nat, total: nat, page: seq<byte>)
    requires |page| == PAYLOAD
    ensures var b := BlockBytes(addr, sequence, total, page);
            && b[0..8] == [0x55, 0x46, 0x32, 0x0A, 0x57, 0x51, 0x5D, 0x9E]
            && b[8..12] == [0x00, 0x20, 0x00, 0x00] && b[16..20] == [0x00, 0x01, 0x00, 0x00]
            && b[28..32] == [0x59, 0xFF, 0x8B, 0xE4] && b[508..512] == [0x30, 0x6F, 0xB1, 0x0A]
            && b[32..288] == page && forall k :: 288 <= k < 508 ==> b[k] == 0
  {
    var b, h := BlockBytes(addr, sequence, total, page), Header(addr, sequence, total);
    HeaderLayout(addr, sequence, total);
    var zeros: seq<byte> := Filled(476 - PAYLOAD, 0);
    assert LittleEndian32(MAGIC_END) == [0x30, 0x6F, 0xB1, 0x0A];
    hide Header, LittleEndian32;
    assert b == h + page + zeros + LittleEndian32(MAGIC_END);
    assert b[0..8] == h[0..8] && b[8..12] == h[8..12] && b[16..20] == h[16..20] && b[28..32] == h[28..32];
    assert b[32..288] == page && b[508..512] == LittleEndian32(MAGIC_END);
    assert forall k :: 288 <= k < 508 ==> b[k] == zeros[k - 288];
  }

  lemma HeaderLayout(addr: nat, sequence: nat, total: nat)
    ensures var h := Header(addr, sequence, total);
            && h[0..8] == [0x55, 0x46, 0x32, 0x0A, 0x57, 0x51, 0x5D, 0x9E]
            && h[8..12] == [0x00, 0x20, 0x00, 0x00] && h[16..20] == [0x00, 0x01, 0x00, 0x00]
            && h[28..32] == [0x59, 0xFF, 0x8B, 0xE4]
  {
    assert LittleEndian32(MAGIC1) == [0x55, 0x46, 0x32, 0x0A] && LittleEndian32(MAGIC2) == [0x57, 0x51, 0x5D, 0x9E];
    assert LittleEndian32(FAMILY_PRESENT) == [0x00, 0x20, 0x00, 0x00] && LittleEndian32(PAYLOAD) == [0x00, 0x01, 0x00, 0x00];
    assert LittleEndian32(FAMILY_RP2350_ARM_S) == [0x59, 0xFF, 0x8B, 0xE4];
    hide LittleEndian32;
  }

  /** Everything there is to say about the j-th block of the file. */
  lemma BlockAt(image: seq<byte>, base: nat, k: nat, j: nat)
    requires j < k <= |Populated(image, PageCount(image))|
    requires base + PageCount(image) * PAYLOAD <= 0x1_0000_0000
    ensures var pop := Populated(image, PageCount(image));
            && pop[j] < PageCount(image) && !IsErased(Page(image, pop[j]))
            && Load(File(image, base, k)[j])
               == Some(Loaded(base + pop[j] * PAYLOAD, PAYLOAD, j, |pop|, Page(image, pop[j])))
  {
    hide BlockBytes, Page, Populated, Load, File, IsErased;
    var pop := Populated(image, PageCount(image));
    PopulatedPages(image, PageCount(image));
    FileAt(image, base, k, j);
    LoadedBlock(base + pop[j] * PAYLOAD, j, |pop|, Page(image, pop[j]));
  }

  /**
   Blocks are numbered 0, 1, .., all name the same total, and hold pages that are not erased at
   ascending addresses, on page boundaries and inside the region of the image.
   */
  lemma BlocksAreInOrder(image: seq<byte>, base: nat, j: nat)
    requires j < |Populated(image, PageCount(image))|
    requires base + |image| <= 0x1_0000_0000 && |image| % PAYLOAD == 0
    ensures var n := |Populated(image, PageCount(image))|;
            var file := File(image, base, n);
            && Load(file[j]).Some?
            && var b := Load(file[j]).value;
            && b.sequence == j && b.total == n && b.size == PAYLOAD && !IsErased(b.data)
            && base <= b.addr && (b.addr - base) % PAYLOAD == 0 && b.addr + PAYLOAD <= base + |image|
            && (j + 1 < n ==> Load(file[j + 1]).Some? && b.addr < Load(file[j + 1]).value.addr)
  {
    hide Page, Populated, Load, File, IsErased;
    var n := |Populated(image, PageCount(image))|;
    assert PageCount(image) * PAYLOAD == |image|;
    PopulatedPages(image, PageCount(image));
    BlockAt(image, base, n, j);
    if j + 1 < n {
      BlockAt(image, base, n, j + 1);
    }
  }

  /** A flash mapped at `base` after a loader wrote one block to it; blocks outside it change nothing. */
  function Write(flash: seq<byte>, base: nat, b: seq<byte>): (r: seq<byte>)
    requires |b| == BLOCK
    ensures |r| == |flash|
  {
    var l := Load(b);
    if l.None? || l.value.addr < base || l.value.addr - base + l.value.size > |flash| then flash
    else Overlay(flash, l.value.addr - base, l.value.data)
  }

  function Overlay(flash: seq<byte>, o: nat, data: seq<byte>): (r: seq<byte>)
    requires o + |data| <= |flash|
    ensures |r| == |flash|
    ensures forall x :: 0 <= x < |flash| ==> r[x] == if o <= x < o + |data| then data[x - o] else flash[x]
  {
    flash[..o] + data + flash[o + |data|..]
  }

  function WriteAll(flash: seq<byte>, base: nat, blocks: seq<seq<byte>>): (r: seq<byte>)
    requires forall j :: 0 <= j < |blocks| ==> |blocks[j]| == BLOCK
    ensures |r| == |flash|
  {
    if blocks == [] then flash
    else Write(WriteAll(flash, base, blocks[..|blocks| - 1]), base, blocks[|blocks| - 1])
  }

  lemma FileGrows(image: seq<byte>, base: nat, k: nat)
    requires 0 < k <= |Populated(image, PageCount(image))|
    ensures File(image, base, k)[..k - 1] == File(image, base, k - 1)
  {
    hide BlockBytes, Page, Populated;
  }

  lemma PageOfOffset(x: nat, p: nat)
    ensures x / PAYLOAD == p <==> p * PAYLOAD <= x < p * PAYLOAD + PAYLOAD
  {
  }

  /** The k-th block lays its page over what the earlier blocks wrote. */
  lemma LastBlockWritten(image: seq<byte>, base: nat, flash: seq<byte>, k: nat)
    requires 0 < k <= |Populated(image, PageCount(image))|
    requires |flash| >= PageCount(image) * PAYLOAD && base + PageCount(image) * PAYLOAD <= 0x1_0000_0000
    ensures var p := Populated(image, PageCount(image))[k - 1];
            && p < PageCount(image) && p * PAYLOAD + PAYLOAD <= |flash|
            && WriteAll(flash, base, File(image, base, k))
            == Overlay(WriteAll(flash, base, File(image, base, k - 1)), p * PAYLOAD, Page(image, p))
  {
    hide Load, Populated, BlockBytes, File, IsErased, Page, Overlay;
    FileGrows(image, base, k);
    BlockAt(image, base, k, k - 1);
  }

  /** After the first k blocks, exactly their pages are written. */
  lemma {:induction false} WrittenPages(image: seq<byte>, base: nat, flash: seq<byte>, k: nat)
    requires k <= |Populated(image, PageCount(image))|
    requires |flash| >= PageCount(image) * PAYLOAD && base + PageCount(image) * PAYLOAD <= 0x1_0000_0000
    requires forall x :: 0 <= x < |flash| ==> flash[x] == ERASED
    ensures var pop := Populated(image, PageCount(image));
            forall x :: 0 <= x < |flash| ==>
              WriteAll(flash, base, File(image, base, k))[x]
              == if x / PAYLOAD in pop[..k] then Wanted(image, x) else ERASED
    decreases k
  {
    hide Populated, File, Wanted, Page, WriteAll, Overlay;
    if k > 0 {
      var pop := Populated(image, PageCount(image));
      WrittenPages(image, base, flash, k - 1);
      LastBlockWritten(image, base, flash, k);
      var p := pop[k - 1];
      var was, now := WriteAll(flash, base, File(image, base, k - 1)), WriteAll(flash, base, File(image, base, k));
      assert pop[..k] == pop[..k - 1] + [p];
      forall x | 0 <= x < |flash|
        ensures now[x] == if x / PAYLOAD in pop[..k] then Wanted(image, x) else ERASED
      {
        PageOfOffset(x, p);
      }
    } else {
      NothingWritten(image, base, flash);
    }
  }

  lemma NothingWritten(image: seq<byte>, base: nat, flash: seq<byte>)
    ensures WriteAll(flash, base, File(image, base, 0)) == flash
  {
  }

  lemma ErasedPageIsWanted(image: seq<byte>, x: nat)
    requires IsErased(Page(image, x / PAYLOAD))
    ensures Wanted(image, x) == ERASED
  {
    hide Wanted;
    var i, k := x / PAYLOAD, x % PAYLOAD;
    assert i * PAYLOAD + k == x;
    assert Page(image, i)[k] == Wanted(image, i * PAYLOAD + k);
  }

  /**
   Writing the file to an erased flash gives the image, followed by 0xFF, although erased pages
   have no block.
   */
  lemma FlashHoldsImage(image: seq<byte>, base: nat, flash: seq<byte>)
    requires |flash| >= PageCount(image) * PAYLOAD && base + PageCount(image) * PAYLOAD <= 0x1_0000_0000
    requires forall x :: 0 <= x < |flash| ==> flash[x] == ERASED
    ensures WriteAll(flash, base, File(image, base, |Populated(image, PageCount(image))|))
         == image + Filled(|flash| - |image|, ERASED)
  {
    hide File, Populated, WriteAll, IsErased, Page;
    var n := PageCount(image);
    var pop := Populated(image, n);
    WrittenPages(image, base, flash, |pop|);
    PopulatedPages(image, n);
    assert pop[..|pop|] == pop;
    var now := WriteAll(flash, base, File(image, base, |pop|));
    forall x | 0 <= x < |flash|
      ensures now[x] == Wanted(image, x)
    {
      if x / PAYLOAD !in pop && x / PAYLOAD < n {
        ErasedPageIsWanted(image, x);
      }
    }
    assert now == image + Filled(|flash| - |image|, ERASED);
  }
}
