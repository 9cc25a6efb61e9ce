/**
 The background pattern that RAM TEST really writes, and what its choice costs: the test
 finds every forced coupling fault exactly when the pattern is zero everywhere, and the
 firmware's pattern never is.
 */
module MarchPattern {
  import opened Wrappers
  import opened MarchBits
  import opened PsramMarch
  import opened MarchCoverage

  function WordOf(n: int): Word
    requires 0 <= n
  {
    (n % 0x1_0000_0000) as Word
  }

  function XorShift16(x: Word): Word {
    x ^ (x >> 16)
  }

  function XorShift15(x: Word): Word {
    x ^ (x >> 15)
  }

  function Scramble(x: Word): Word {
    x * 0x7FEB_352D
  }

  function Mix(x: Word): Word {
    XorShift15(Scramble(XorShift16(x))) ^ 0xA5A5_5A5A
  }

  /** The address of word k, mixed with the scaled index. */
  function Seed(base: Word, k: nat): Word {
    (base + 4 * WordOf(k)) ^ (WordOf(k) * 0x9E37_79B9)
  }

  /** The pattern word for index k of a block that starts at address `base`. */
  function TestPattern(base: Word, k: nat): Word {
    Mix(Seed(base, k))
  }

  function PatternAt(base: Word): nat -> Word {
    (k: nat) => TestPattern(base, k)
  }

  /** RAM TEST on `bytes` bytes at address `base`. */
  method RamTest(mem: Psram, base: Word, bytes: nat) returns (o: Option<Outcome>)
    requires Fits(mem.fault, mem.cells.Length) && bytes / 4 <= mem.cells.Length
    modifies mem.cells
    ensures var r := March(mem.fault, old(mem.cells[..]), bytes / 4, PatternAt(base));
            if r.Done? then o.None? && mem.cells[..] == r.cells else o == Some(r) && mem.cells[..] == r.left
  {
    o := mem.MarchTest(bytes, PatternAt(base));
  }

  lemma SmallWords()
    ensures WordOf(0) == 0 && WordOf(1) == 1 && WordOf(2) == 2
  {
  }

  lemma SeedValues()
    ensures Seed(0, 0) == 0 && Seed(0x1100_0000, 0) == 0x1100_0000
    ensures Seed(0x1100_0000, 1) == 0x8F37_79BD && Seed(0x1100_0000, 2) == 0x2D6E_F37A
  {
    SmallWords();
    hide WordOf;
  }

  lemma MixValues()
    ensures Mix(0) == 0xA5A5_5A5A && Mix(0x1100_0000) == 0x3E23_9055
    ensures Mix(0x8F37_79BD) == 0x2C2A_A105 && Mix(0x2D6E_F37A) == 0x1D77_0678
  {
  }

  /** Pattern words of two memories: at address 0, and of the first words from &H11000000 on. */
  lemma PatternValues()
    ensures TestPattern(0, 0) == 0xA5A5_5A5A
    ensures TestPattern(0x1100_0000, 0) == 0x3E23_9055
    ensures TestPattern(0x1100_0000, 1) == 0x2C2A_A105
    ensures TestPattern(0x1100_0000, 2) == 0x1D77_0678
  {
    SeedValues();
    MixValues();
    hide Seed, Mix;
  }

  // ---------- patterns and forced coupling ----------

  lemma LowestBit(w: Word) returns (m: Word)
    requires w != 0
    ensures OneBit(m) && Bit(w, m)
  {
    m := w & (0 - w);
  }

  lemma ZeroHasNoBit(m: Word)
    ensures !Bit(0, m)
  {
  }

  /** A coupling fault that a set pattern bit hides. */
  lemma PatternBitHidesFault(c: seq<Word>, n: nat, pat: nat -> Word, k: nat) returns (f: Fault)
    requires 2 <= n <= |c| && k < n && pat(k) != 0
    ensures f.Coupling? && f.effect.Force? && Fits(f, n) && Passes(f, c, n, pat)
  {
    var m := LowestBit(pat(k));
    var v: nat := if k == 0 then 1 else 0;
    f := Coupling(k, m, v, 1, true, Force(v < k));
    ForcedCouplingVerdict(f, c, n, pat);
  }

  /** Every forced inter-word coupling fault is found exactly when the pattern is zero throughout. */
  lemma ForcedCouplingCoverage(c: seq<Word>, n: nat, pat: nat -> Word)
    requires 2 <= n <= |c|
    ensures (forall f: Fault :: f.Coupling? && f.effect.Force? && Fits(f, n) ==> !Passes(f, c, n, pat))
       <==> (forall k :: 0 <= k < n ==> pat(k) == 0)
  {
    if forall k :: 0 <= k < n ==> pat(k) == 0 {
      forall f: Fault | f.Coupling? && f.effect.Force? && Fits(f, n)
        ensures !Passes(f, c, n, pat)
      {
        ForcedCouplingVerdict(f, c, n, pat);
        ZeroHasNoBit(f.aggMask);
        ZeroHasNoBit(f.vicMask);
      }
    } else {
      var k :| 0 <= k < n && pat(k) != 0;
      var f := PatternBitHidesFault(c, n, pat, k);
    }
  }

  function UnXorShift16(y: Word): Word {
    y ^ (y >> 16)
  }

  function UnXorShift15(y: Word): Word {
    y ^ (y >> 15) ^ (y >> 30)
  }

  function UnScramble(y: Word): Word {
    y * 0x1D69_E2A5
  }

  lemma XorShift16Cancels(x: Word)
    ensures (x ^ (x >> 16)) ^ ((x ^ (x >> 16)) >> 16) == x
  {
  }

  lemma UnXorShift16Undoes(x: Word)
    ensures UnXorShift16(x ^ (x >> 16)) == x
  {
    XorShift16Cancels(x);
  }

  lemma XorShift16IsInjective(a: Word, b: Word)
    requires XorShift16(a) == XorShift16(b)
    ensures a == b
  {
    hide UnXorShift16;
    UnXorShift16Undoes(a);
    UnXorShift16Undoes(b);
  }

  lemma XorShift15Cancels(x: Word)
    ensures (x ^ (x >> 15)) ^ ((x ^ (x >> 15)) >> 15) ^ ((x ^ (x >> 15)) >> 30) == x
  {
  }

  lemma UnXorShift15Undoes(x: Word)
    ensures UnXorShift15(x ^ (x >> 15)) == x
  {
    XorShift15Cancels(x);
  }

  lemma XorShift15IsInjective(a: Word, b: Word)
    requires XorShift15(a) == XorShift15(b)
    ensures a == b
  {
    hide UnXorShift15;
    UnXorShift15Undoes(a);
    UnXorShift15Undoes(b);
  }

  lemma ScrambleCancels(x: Word)
    ensures (x * 0x7FEB_352D) * 0x1D69_E2A5 == x
  {
  }

  lemma UnScrambleUndoes(x: Word)
    ensures UnScramble(x * 0x7FEB_352D) == x
  {
    ScrambleCancels(x);
  }

  lemma ScrambleIsInjective(a: Word, b: Word)
    requires Scramble(a) == Scramble(b)
    ensures a == b
  {
    hide UnScramble;
    UnScrambleUndoes(a);
    UnScrambleUndoes(b);
  }

  lemma MaskIsInjective(a: Word, b: Word)
    requires a ^ 0xA5A5_5A5A == b ^ 0xA5A5_5A5A
    ensures a == b
  {
  }

  /** Different seeds give different pattern words. */
  lemma MixIsInjective(a: Word, b: Word)
    requires Mix(a) == Mix(b)
    ensures a == b
  {
    hide XorShift15, XorShift16, Scramble;
    var y, y' := XorShift16(a), XorShift16(b);
    MaskIsInjective(XorShift15(Scramble(y)), XorShift15(Scramble(y')));
    XorShift15IsInjective(Scramble(y), Scramble(y'));
    ScrambleIsInjective(y, y');
    XorShift16IsInjective(a, b);
  }

  lemma FirstSeedsDiffer(base: Word)
    ensures Seed(base, 0) != Seed(base, 1)
  {
  }

  lemma FirstPatternsDiffer(base: Word)
    ensures TestPattern(base, 0) != TestPattern(base, 1)
  {
    hide Mix, Seed;
    FirstSeedsDiffer(base);
    if TestPattern(base, 0) == TestPattern(base, 1) {
      MixIsInjective(Seed(base, 0), Seed(base, 1));
    }
  }

  /** The firmware's pattern leaves some forced coupling fault undetected, wherever the block lies. */
  lemma FirmwarePatternMissesAFault(c: seq<Word>, n: nat, base: Word) returns (f: Fault)
    requires 2 <= n <= |c|
    ensures f.Coupling? && f.effect.Force? && Fits(f, n) && Passes(f, c, n, PatternAt(base))
  {
    hide TestPattern;
    FirstPatternsDiffer(base);
    var k: nat := if TestPattern(base, 0) != 0 then 0 else 1;
    f := PatternBitHidesFault(c, n, PatternAt(base), k);
  }
}
