/**
 The escape-sequence decoder shared by every console (runtime/runtime_console_escdecode.c),
 as a function on the events its byte reader delivers: a byte, or a negative number for a
 read that timed out.
 */
module EscapeKeys {
  import opened Wrappers

  const BKSP := 0x08
  const ENTER := 0x0D
  const ESC := 0x1B
  const DEL := 0x7F
  const UP := 0x80
  const DOWN := 0x81
  const LEFT := 0x82
  const RIGHT := 0x83
  const INSERT := 0x84
  const HOME := 0x86
  const END := 0x87
  const PUP := 0x88
  const PDOWN := 0x89
  const F1 := 0x91
  const F3 := 0x93
  const F5 := 0x95
  const F6 := 0x96
  const F11 := 0x9B
  const SHIFT_TAB := 0x9F
  const SHIFT := 0x20

  type Events = seq<int>

  /** The key returned, the events not read, and the bytes pushed back. */
  datatype Decoded = Decoded(key: int, rest: Events, pushed: seq<int>)

  function Head(ev: Events): int {
    if ev == [] then -1 else ev[0]
  }

  function Tail(ev: Events): Events {
    if ev == [] then [] else ev[1..]
  }

  predicate IsDigit(c: int) {
    '0' as int <= c <= '9' as int
  }

  function Normalise(c: int): int {
    if c == 0x7F then BKSP else if c == '\n' as int then ENTER else c
  }

  /** Final letters that name a key with or without a parameter before them. */
  function LetterKey(c: int): Option<int> {
    if c == 'A' as int then Some(UP)
    else if c == 'B' as int then Some(DOWN)
    else if c == 'C' as int then Some(RIGHT)
    else if c == 'D' as int then Some(LEFT)
    else if c == 'H' as int then Some(HOME)
    else if c == 'F' as int then Some(END)
    else None
  }

  /** The key of ESC [ n ~. */
  function TildeKey(n: int): Option<int> {
    if n == 1 then Some(HOME)
    else if n == 2 then Some(INSERT)
    else if n == 3 then Some(DEL)
    else if n == 4 then Some(END)
    else if n == 5 then Some(PUP)
    else if n == 6 then Some(PDOWN)
    else if 11 <= n <= 15 then Some(F1 + (n - 11))
    else if 17 <= n <= 21 then Some(F6 + (n - 17))
    else if 23 <= n <= 24 then Some(F11 + (n - 23))
    else if 25 <= n <= 26 then Some(F3 + (n - 25) + SHIFT)
    else if 28 <= n <= 29 then Some(F5 + (n - 28) + SHIFT)
    else if 31 <= n <= 34 then Some(0x97 + (n - 31) + SHIFT)
    else None
  }

  /** The number of leading events that are digits. */
  function DigitRun(ev: Events): (k: nat)
    ensures k <= |ev|
    ensures k == |ev| || !IsDigit(ev[k])
    ensures forall j :: 0 <= j < k ==> IsDigit(ev[j])
    decreases |ev|
  {
    if ev == [] || !IsDigit(ev[0]) then 0 else 1 + DigitRun(ev[1..])
  }

  /** n followed by further decimal digits. */
  function Value(n: int, digits: seq<int>): int
    decreases |digits|
  {
    if digits == [] then n else Value(n * 10 + (digits[0] - '0' as int), digits[1..])
  }

  /** The key of a parameter n and a final byte t. */
  function FinalKey(n: int, t: int): int {
    if LetterKey(t).Some? then LetterKey(t).value
    else if t == '~' as int && TildeKey(n).Some? then TildeKey(n).value
    else ESC
  }

  /** What follows ESC [ digits: an optional modifier, then the final byte. */
  function DecodeFinal(n: int, ev: Events): Decoded {
    var c := Head(ev);
    var mods := if c == ';' as int then 1 + DigitRun(ev[1..]) else 0;
    var last := ev[mods..];
    var t := Head(last);
    Decoded(FinalKey(n, t), Tail(last), [])
  }

  function DecodeCsi(ev: Events): Decoded {
    var c := Head(ev);
    if c < 0 then Decoded(ESC, Tail(ev), ['[' as int])
    else if LetterKey(c).Some? then Decoded(LetterKey(c).value, Tail(ev), [])
    else if c == 'Z' as int then Decoded(SHIFT_TAB, Tail(ev), [])
    else if !IsDigit(c) then Decoded(ESC, Tail(ev), ['[' as int, c])
    else
      var k := DigitRun(ev);
      DecodeFinal(Value(0, ev[..k]), ev[k..])
  }

  function DecodeSs3(ev: Events): Decoded {
    var c := Head(ev);
    if c < 0 then Decoded(ESC, Tail(ev), ['O' as int])
    else if 'P' as int <= c <= 'T' as int then Decoded(F1 + (c - 'P' as int), Tail(ev), [])
    else if c == '2' as int then
      var d := Head(Tail(ev));
      var rest := Tail(Tail(ev));
      if d == 'R' as int then Decoded(F3 + SHIFT, rest, [])
      else Decoded(ESC, rest, ['O' as int, c] + if d >= 0 then [d] else [])
    else Decoded(ESC, Tail(ev), ['O' as int, c])
  }

  /** The decoder, started after an ESC byte. */
  function Decode(ev: Events): Decoded {
    var c := Head(ev);
    if c < 0 then Decoded(ESC, Tail(ev), [])
    else if c == 'O' as int then DecodeSs3(Tail(ev))
    else if c == '[' as int then DecodeCsi(Tail(ev))
    else Decoded(ESC, Tail(ev), [c])
  }

  // ---------- what is read and what is pushed back ----------

  /** The bytes among the events, without the timeouts. */
  function Bytes(ev: Events): seq<int> {
    if ev == [] then [] else (if ev[0] >= 0 then [ev[0]] else []) + Bytes(ev[1..])
  }

  predicate IsNumeric(ev: Events) {
    |ev| >= 2 && ev[0] == '[' as int && IsDigit(ev[1])
  }

  lemma BytesOfUpToThree(ev: Events)
    requires |ev| <= 3
    ensures |ev| == 0 ==> Bytes(ev) == []
    ensures |ev| == 1 ==> Bytes(ev) == if ev[0] >= 0 then [ev[0]] else []
    ensures |ev| == 2 && ev[0] >= 0 ==> Bytes(ev) == [ev[0]] + if ev[1] >= 0 then [ev[1]] else []
    ensures |ev| == 3 && ev[0] >= 0 && ev[1] >= 0 ==> Bytes(ev) == [ev[0], ev[1]] + if ev[2] >= 0 then [ev[2]] else []
  {
    if |ev| >= 1 {
      var t := ev[1..];
      if |t| >= 1 {
        var u := t[1..];
        if |u| >= 1 {
          assert u[1..] == [];
          assert Bytes(u) == if u[0] >= 0 then [u[0]] else [];
        }
        assert Bytes(t) == (if t[0] >= 0 then [t[0]] else []) + Bytes(u);
      }
    }
  }

  lemma NumericConsumes(ev: Events) returns (k: nat)
    requires IsNumeric(ev)
    ensures 0 < k <= |ev| && Decode(ev).rest == ev[k..] && Decode(ev).pushed == []
  {
    hide TildeKey, FinalKey, Value;
    var n := DigitRun(ev[1..]);
    var e := ev[1..][n..];
    assert e == ev[n + 1..];
    assert Decode(ev) == DecodeFinal(Value(0, ev[1..][..n]), e);
    var mods := if Head(e) == ';' as int then 1 + DigitRun(e[1..]) else 0;
    assert e[mods..] == ev[n + 1 + mods..];
    k := if n + 1 + mods < |ev| then n + 2 + mods else |ev|;
  }

  lemma LetterKeysAreNotEsc(c: int)
    ensures LetterKey(c).Some? ==> LetterKey(c).value != ESC && c >= 0 && !IsDigit(c)
  {
  }

  lemma ShortConsumes(ev: Events) returns (k: nat)
    requires !IsNumeric(ev)
    ensures var d := Decode(ev);
            && k <= |ev| && k <= 3 && d.rest == ev[k..] && (ev != [] ==> k > 0)
            && d.pushed == (if d.key == ESC then Bytes(ev[..k]) else [])
            && |d.pushed| <= 3 && (forall j :: 0 <= j < |d.pushed| ==> d.pushed[j] >= 0)
  {
    hide LetterKey, TildeKey, FinalKey, Value, DigitRun, Bytes, DecodeFinal;
    k := |ev| - |Decode(ev).rest|;
    if |ev| >= 2 {
      assert ev[1..][1..] == ev[2..];
      LetterKeysAreNotEsc(ev[1]);
    }
    if |ev| >= 3 { assert ev[1..][1..][1..] == ev[3..]; }
    BytesOfUpToThree(ev[..k]);
  }

  /**
   The decoder reads a prefix of its input. A sequence it does not know is pushed back byte for
   byte, unless it is numeric: then, as for a known key, nothing is pushed back.
   */
  lemma DecodeConsumesOrPushesBack(ev: Events) returns (k: nat)
    ensures var d := Decode(ev);
            && k <= |ev| && d.rest == ev[k..] && (ev != [] ==> k > 0)
            && d.pushed == (if d.key == ESC && !IsNumeric(ev) then Bytes(ev[..k]) else [])
            && |d.pushed| <= 3 && (forall j :: 0 <= j < |d.pushed| ==> d.pushed[j] >= 0)
  {
    hide LetterKey, TildeKey, FinalKey, Value, DigitRun, Bytes;
    if IsNumeric(ev) {
      k := NumericConsumes(ev);
    } else {
      k := ShortConsumes(ev);
    }
  }

  // ---------- the grammar ----------

  predicate AllDigits(s: seq<int>) {
    forall k :: 0 <= k < |s| ==> IsDigit(s[k])
  }

  lemma {:induction false} DigitRunOf(digits: seq<int>, rest: Events)
    requires AllDigits(digits) && (rest == [] || !IsDigit(rest[0]))
    ensures DigitRun(digits + rest) == |digits|
    decreases |digits|
  {
    if digits == [] {
      assert digits + rest == rest;
    } else {
      assert (digits + rest)[1..] == digits[1..] + rest;
      DigitRunOf(digits[1..], rest);
    }
  }

  /** A modifier parameter as it is written, or nothing. */
  predicate IsModifier(m: seq<int>) {
    m == [] || (m[0] == ';' as int && AllDigits(m[1..]))
  }

  lemma ModifierIsSkipped(n: int, m: seq<int>, t: int, rest: Events)
    requires IsModifier(m) && !IsDigit(t) && (m == [] ==> t != ';' as int)
    ensures DecodeFinal(n, m + [t] + rest) == Decoded(FinalKey(n, t), rest, [])
  {
    hide LetterKey, TildeKey, DigitRun;
    var ev := m + [t] + rest;
    if m != [] {
      assert ev[1..] == m[1..] + ([t] + rest);
      DigitRunOf(m[1..], [t] + rest);
      assert ev[|m|..] == [t] + rest;
    } else {
      assert ev == [t] + rest;
    }
    assert ([t] + rest)[1..] == rest;
  }

  /**
   ESC [ digits, an optional modifier and a final byte decode to the key of the final byte and
   of the value of the digits; exactly the sequence is read, and the modifier does not matter.
   */
  lemma NumericSequence(digits: seq<int>, m: seq<int>, t: int, rest: Events)
    requires digits != [] && AllDigits(digits) && IsModifier(m)
    requires !IsDigit(t) && (m == [] ==> t != ';' as int)
    ensures Decode(['[' as int] + digits + m + [t] + rest)
         == Decoded(FinalKey(Value(0, digits), t), rest, [])
  {
    hide TildeKey, DigitRun, Value, DecodeFinal, FinalKey;
    var tail := m + [t] + rest;
    var ev := ['[' as int] + digits + m + [t] + rest;
    assert ev[1..] == digits + tail;
    DigitRunOf(digits, tail);
    assert (digits + tail)[..|digits|] == digits;
    assert (digits + tail)[|digits|..] == tail;
    ModifierIsSkipped(Value(0, digits), m, t, rest);
    assert IsDigit((digits + tail)[0]);
  }

  /** Leading zeros do not change a parameter. */
  lemma {:induction false} LeadingZeros(zeros: seq<int>, digits: seq<int>)
    requires forall k :: 0 <= k < |zeros| ==> zeros[k] == '0' as int
    ensures Value(0, zeros + digits) == Value(0, digits)
    decreases |zeros|
  {
    if zeros == [] {
      assert zeros + digits == digits;
    } else {
      assert (zeros + digits)[1..] == zeros[1..] + digits;
      LeadingZeros(zeros[1..], digits);
    }
  }

  /** n in decimal, without leading zeros. */
  function Decimal(n: nat): (s: seq<int>)
    ensures s != [] && AllDigits(s)
  {
    (if n < 10 then [] else Decimal(n / 10)) + ['0' as int + n % 10]
  }

  lemma {:induction false} ValueSnoc(n: int, s: seq<int>, c: int)
    ensures Value(n, s + [c]) == Value(n, s) * 10 + (c - '0' as int)
    decreases |s|
  {
    if s == [] {
      assert s + [c] == [c] && [c][1..] == [];
    } else {
      assert (s + [c])[1..] == s[1..] + [c];
      ValueSnoc(n * 10 + (s[0] - '0' as int), s[1..], c);
    }
  }

  lemma {:induction false} ValueOfDecimal(n: nat)
    ensures Value(0, Decimal(n)) == n
    decreases n
  {
    if n >= 10 {
      ValueOfDecimal(n / 10);
      ValueSnoc(0, Decimal(n / 10), '0' as int + n % 10);
    } else {
      var c := '0' as int + n % 10;
      assert Decimal(n) == [c] && [c][1..] == [];
      assert Value(0, [c]) == Value(0 * 10 + (c - '0' as int), []);
    }
  }

  /** The sequence a terminal sends for a key after ESC, if the decoder has one for it. */
  function SequenceOf(key: int): Option<seq<int>> {
    if key == SHIFT_TAB then Some(['[' as int, 'Z' as int])
    else if key == UP then Some(['[' as int, 'A' as int])
    else if key == DOWN then Some(['[' as int, 'B' as int])
    else if key == RIGHT then Some(['[' as int, 'C' as int])
    else if key == LEFT then Some(['[' as int, 'D' as int])
    else
      var n := TildeNumber(key);
      if n == 0 then None else Some(['[' as int] + Decimal(n) + ['~' as int])
  }

  function TildeNumber(key: int): nat {
    if key == HOME then 1 else if key == INSERT then 2 else if key == DEL then 3
    else if key == END then 4 else if key == PUP then 5 else if key == PDOWN then 6
    else if 0x91 <= key <= 0x95 then 11 + (key - 0x91)
    else if 0x96 <= key <= 0x9A then 17 + (key - 0x96)
    else if 0x9B <= key <= 0x9C then 23 + (key - 0x9B)
    else if 0xB3 <= key <= 0xB4 then 25 + (key - 0xB3)
    else if 0xB5 <= key <= 0xB6 then 28 + (key - 0xB5)
    else if 0xB7 <= key <= 0xBA then 31 + (key - 0xB7)
    else 0
  }

  /** Every key's sequence decodes to that key, and nothing more than the sequence is read. */
  lemma EveryKeyDecodes(key: int, rest: Events)
    requires SequenceOf(key).Some?
    ensures Decode(SequenceOf(key).value + rest) == Decoded(key, rest, [])
  {
    hide Decimal, Value, DigitRun, DecodeFinal;
    var s := SequenceOf(key).value;
    var n := TildeNumber(key);
    if key == SHIFT_TAB || key == UP || key == DOWN || key == RIGHT || key == LEFT {
      assert (s + rest)[1..][1..] == rest;
    } else {
      NumericSequence(Decimal(n), [], '~' as int, rest);
      ValueOfDecimal(n);
      assert s + rest == ['[' as int] + Decimal(n) + [] + ['~' as int] + rest;
    }
  }

  /** ESC O P to ESC O T are F1 to F5, and ESC O 2 R is shift F3. */
  lemma Ss3KeysDecode(rest: Events)
    ensures Decode(['O' as int, 'P' as int] + rest) == Decoded(0x91, rest, [])
    ensures Decode(['O' as int, 'Q' as int] + rest) == Decoded(0x92, rest, [])
    ensures Decode(['O' as int, 'R' as int] + rest) == Decoded(0x93, rest, [])
    ensures Decode(['O' as int, 'S' as int] + rest) == Decoded(0x94, rest, [])
    ensures Decode(['O' as int, 'T' as int] + rest) == Decoded(0x95, rest, [])
    ensures Decode(['O' as int, '2' as int, 'R' as int] + rest) == Decoded(0xB3, rest, [])
  {
    hide DecodeSs3, DecodeCsi;
    Ss3LetterDecodes('P' as int, rest);
    Ss3LetterDecodes('Q' as int, rest);
    Ss3LetterDecodes('R' as int, rest);
    Ss3LetterDecodes('S' as int, rest);
    Ss3LetterDecodes('T' as int, rest);
    Ss3ShiftedDecodes(rest);
  }

  lemma Ss3LetterDecodes(c: int, rest: Events)
    requires 'P' as int <= c <= 'T' as int
    ensures Decode(['O' as int, c] + rest) == Decoded(0x91 + (c - 'P' as int), rest, [])
  {
    var ev := ['O' as int, c] + rest;
    assert Tail(ev) == [c] + rest && Tail(Tail(ev)) == rest;
  }

  lemma Ss3ShiftedDecodes(rest: Events)
    ensures Decode(['O' as int, '2' as int, 'R' as int] + rest) == Decoded(0xB3, rest, [])
  {
    var ev := ['O' as int, '2' as int, 'R' as int] + rest;
    assert Tail(ev) == ['2' as int, 'R' as int] + rest && Tail(Tail(ev)) == ['R' as int] + rest && Tail(Tail(Tail(ev))) == rest;
  }

  /** The key of a final letter: A up, B down, C right, D left, H home, F end. */
  predicate LetterCode(c: int, key: int) {
    || (c == 'A' as int && key == 0x80) || (c == 'B' as int && key == 0x81)
    || (c == 'C' as int && key == 0x83) || (c == 'D' as int && key == 0x82)
    || (c == 'H' as int && key == 0x86) || (c == 'F' as int && key == 0x87)
  }

  /** The letter names its key directly behind ESC [ and behind any number and modifier. */
  lemma LetterKeysDecode(c: int, key: int, digits: seq<int>, m: seq<int>, rest: Events)
    requires LetterCode(c, key) && digits != [] && AllDigits(digits) && IsModifier(m)
    ensures Decode(['[' as int, c] + rest) == Decoded(key, rest, [])
    ensures Decode(['[' as int] + digits + m + [c] + rest) == Decoded(key, rest, [])
  {
    var ev := ['[' as int, c] + rest;
    assert Tail(ev) == [c] + rest && Tail(Tail(ev)) == rest;
    hide Decode, Value;
    assert FinalKey(Value(0, digits), c) == key;
    NumericSequence(digits, m, c, rest);
    assert Decode(ev) == Decoded(key, rest, []) by { DirectLetter(c, key, rest); }
  }

  lemma DirectLetter(c: int, key: int, rest: Events)
    requires LetterCode(c, key)
    ensures Decode(['[' as int, c] + rest) == Decoded(key, rest, [])
  {
    var ev := ['[' as int, c] + rest;
    assert Tail(ev) == [c] + rest && Tail(Tail(ev)) == rest;
  }

  lemma FinalKeysHaveSequences(n: int, t: int)
    ensures FinalKey(n, t) == ESC || SequenceOf(FinalKey(n, t)).Some?
  {
    hide Decimal;
  }

  /** The decoder returns no key but ESC and the keys that have a sequence. */
  lemma DecodedKeysHaveSequences(ev: Events)
    ensures var key := Decode(ev).key; key == ESC || SequenceOf(key).Some?
  {
    hide Decimal, DigitRun, Value, FinalKey;
    if IsNumeric(ev) {
      var n := DigitRun(ev[1..]);
      var e := ev[1..][n..];
      var mods := if Head(e) == ';' as int then 1 + DigitRun(e[1..]) else 0;
      FinalKeysHaveSequences(Value(0, ev[1..][..n]), Head(e[mods..]));
    }
  }
}
