/**
 MMgetline (runtime/runtime_getline.c): reading a line with tab stops, backspace, function-key
 macros and echo. `Edit` is the editor as a function of the characters typed; a terminal that
 replays the echo is the reference for what the user sees.
 */
module LineEditor {
  import opened Wrappers

  const MAXSTRLEN := 255
  const STRINGSIZE := 256
  const BS := 8
  const TAB := 9
  const LF := 10
  const CR := 13
  const SPACE := 32

  type Text = seq<int>

  datatype Input = Console | SerialPort | DiskFile

  /** `keys` gives the text of every programmed function key. */
  datatype Config = Config(input: Input, echo: bool, keys: map<int, Text>)

  /**
   Waiting for more input, a finished line, the "Line is too long" error, or a macro that does not
   fit the caller's buffer behind the line: the unchecked copy then writes past its end.
   */
  datatype Outcome =
    | Waiting(line: Text, echoed: Text)
    | Line(line: Text, echoed: Text)
    | TooLong(line: Text, echoed: Text)
    | Overrun(line: Text, echoed: Text)

  predicate IsPrint(c: int) {
    32 <= c <= 126
  }

  function Spaces(k: nat): Text {
    Filled(k, SPACE)
  }

  predicate Echoes(cfg: Config) {
    cfg.input.Console? && cfg.echo
  }

  function Echo(cfg: Config, s: Text): Text {
    if Echoes(cfg) then s else []
  }

  /** Width of a tab typed after n characters. */
  function TabWidth(n: nat): (w: nat)
    ensures 1 <= w <= 4 && (n + w) % 4 == 0
  {
    4 - n % 4
  }

  /** The editor, with `line` collected and `echoed` written so far, on the characters still to come. */
  function Edit(cfg: Config, line: Text, echoed: Text, input: Text): Outcome
    decreases |input|
  {
    if input == [] then
      if cfg.input.DiskFile? then Line(line, echoed) else Waiting(line, echoed)
    else
      var c, rest := input[0], input[1..];
      if c <= 0 then Edit(cfg, line, echoed, rest)
      else if cfg.input.Console? && c in cfg.keys then
        if |line + cfg.keys[c]| >= STRINGSIZE then Overrun(line, echoed)
        else Line(line + cfg.keys[c], echoed + Echo(cfg, cfg.keys[c] + [CR, LF]))
      else if c == TAB then
        var w := TabWidth(|line|);
        if |line| + w <= MAXSTRLEN then Edit(cfg, line + Spaces(w), echoed + Echo(cfg, Spaces(w)), rest)
        else
          var fit := if |line| <= MAXSTRLEN then Spaces(MAXSTRLEN - |line|) else [];
          TooLong(line + fit, echoed + Echo(cfg, fit))
      else if c == BS then
        if line != [] then Edit(cfg, line[..|line| - 1], echoed + Echo(cfg, [BS, SPACE, BS]), rest)
        else Edit(cfg, line, echoed, rest)
      else if c == LF then Line(line, echoed)
      else if c == CR then
        if Echoes(cfg) then Line(line, echoed + [CR, LF]) else Edit(cfg, line, echoed, rest)
      else
        var e := echoed + (if IsPrint(c) then Echo(cfg, [c]) else []);
        if |line| + 1 <= MAXSTRLEN then Edit(cfg, line + [c], e, rest) else TooLong(line, e)
  }

  /** MMgetline from its first character. */
  function GetLine(cfg: Config, input: Text): Outcome {
    Edit(cfg, [], [], input)
  }

  // ---------- the method ----------

  class Editor {
    const cfg: Config
    const buf: array<int>
    var nbrchars: nat
    var output: Text

    constructor (config: Config, p: array<int>)
      ensures cfg == config && buf == p && nbrchars == 0 && output == []
    {
      cfg, buf, nbrchars, output := config, p, 0, [];
    }

    method Put(s: Text)
      modifies `output
      ensures output == old(output) + Echo(cfg, s)
    {
      if cfg.input.Console? && cfg.echo {
        output := output + s;
      }
    }

    /** Appends spaces up to the next tab stop; false when the line gets too long. */
    method ExpandTab() returns (ok: bool)
      requires buf.Length > MAXSTRLEN && nbrchars <= MAXSTRLEN
      modifies `nbrchars, `output, buf
      ensures nbrchars <= MAXSTRLEN
      ensures var n, w := old(nbrchars), TabWidth(old(nbrchars));
              var k := if n + w <= MAXSTRLEN then w else MAXSTRLEN - n;
              && ok == (n + w <= MAXSTRLEN)
              && buf[..nbrchars] == old(buf[..nbrchars]) + Spaces(k)
              && output == old(output) + Echo(cfg, Spaces(k))
    {
      ghost var n, was, out := nbrchars, buf[..nbrchars], output;
      ghost var k := 0;
      ok := true;
      var more := true;
      assert was + Spaces(0) == was && out + Echo(cfg, Spaces(0)) == out;
      while more
        invariant 0 <= k <= TabWidth(n) && nbrchars == n + k <= MAXSTRLEN
        invariant more <==> k < TabWidth(n)
        invariant buf[..nbrchars] == was + Spaces(k)
        invariant output == out + Echo(cfg, Spaces(k))
        decreases TabWidth(n) - k
      {
        if nbrchars + 1 > MAXSTRLEN { return false; }
        buf[nbrchars] := SPACE;
        nbrchars := nbrchars + 1;
        Put([SPACE]);
        assert buf[..nbrchars] == (was + Spaces(k)) + [SPACE];
        assert Spaces(k + 1) == Spaces(k) + [SPACE];
        k := k + 1;
        more := nbrchars % 4 != 0;
      }
    }

    /** strcpy of a macro at the write pointer; false, with nothing copied, where it would overrun the buffer. */
    method CopyMacro(text: Text) returns (fits: bool)
      requires nbrchars < buf.Length
      modifies `nbrchars, buf
      ensures fits <==> old(nbrchars) + |text| < buf.Length
      ensures nbrchars == old(nbrchars) + if fits then |text| else 0
      ensures buf[..nbrchars] == old(buf[..nbrchars]) + if fits then text else []
      ensures fits ==> buf[nbrchars] == 0
    {
      ghost var was := buf[..nbrchars];
      if nbrchars + |text| >= buf.Length {
        assert was + [] == was;
        return false;
      }
      forall k | 0 <= k < |text| {
        buf[nbrchars + k] := text[k];
      }
      nbrchars := nbrchars + |text|;
      buf[nbrchars] := 0;
      assert buf[..nbrchars] == was + text;
      fits := true;
    }

    /** MMgetline into a buffer of STRINGSIZE characters, as all callers at the console pass. */
    method MMgetline(input: Text) returns (o: Outcome)
      requires buf.Length == STRINGSIZE && nbrchars == 0 && output == []
      modifies `nbrchars, `output, buf
      ensures o == GetLine(cfg, input)
      ensures nbrchars <= MAXSTRLEN && buf[..nbrchars] == o.line && output == o.echoed
      ensures o.Line? ==> buf[nbrchars] == 0
    {
      var i := 0;
      assert buf[..0] == [] && input[0..] == input;
      while i < |input|
        invariant i <= |input| && nbrchars <= MAXSTRLEN
        invariant GetLine(cfg, input) == Edit(cfg, buf[..nbrchars], output, input[i..])
        decreases |input| - i
      {
        hide TabWidth;
        ghost var line, rest := buf[..nbrchars], input[i..];
        var c := input[i];
        i := i + 1;
        assert rest[1..] == input[i..];
        if c <= 0 { continue; }
        if cfg.input.Console? && c in cfg.keys {
          var fits := CopyMacro(cfg.keys[c]);
          if !fits { return Overrun(buf[..nbrchars], output); }
          Put(cfg.keys[c] + [CR, LF]);
          return Line(buf[..nbrchars], output);
        }
        if c == TAB {
          var ok := ExpandTab();
          if !ok { return TooLong(buf[..nbrchars], output); }
          continue;
        }
        if c == BS {
          if nbrchars > 0 {
            Put([BS, SPACE, BS]);
            nbrchars := nbrchars - 1;
            assert buf[..nbrchars] == line[..|line| - 1];
          }
          continue;
        }
        if c == LF {
          buf[nbrchars] := 0;
          return Line(buf[..nbrchars], output);
        }
        if c == CR {
          if Echoes(cfg) {
            Put([CR, LF]);
            buf[nbrchars] := 0;
            return Line(buf[..nbrchars], output);
          }
          continue;
        }
        if IsPrint(c) {
          Put([c]);
        } else {
          assert output + [] == output;
        }
        if nbrchars + 1 > MAXSTRLEN { return TooLong(buf[..nbrchars], output); }
        buf[nbrchars] := c;
        nbrchars := nbrchars + 1;
        assert buf[..nbrchars] == line + [c];
      }
      if cfg.input.DiskFile? {
        buf[nbrchars] := 0;
        return Line(buf[..nbrchars], output);
      }
      o := Waiting(buf[..nbrchars], output);
    }
  }

  // ---------- how a line ends ----------

  /** The characters that finish a line. */
  predicate Finishes(cfg: Config, c: int) {
    c > 0 && ((cfg.input.Console? && c in cfg.keys) || c == LF || (c == CR && Echoes(cfg)))
  }

  predicate Open(cfg: Config, typed: Text) {
    forall c :: c in typed ==> !Finishes(cfg, c)
  }

  /** Characters that finish nothing are collected, whatever follows; the line stays within MAXSTRLEN. */
  lemma {:induction false} EditGoesOn(cfg: Config, line: Text, echoed: Text, typed: Text, rest: Text)
    requires !cfg.input.DiskFile? && Open(cfg, typed) && |line| <= MAXSTRLEN
    ensures var t := Edit(cfg, line, echoed, typed);
            && (t.Waiting? || t.TooLong?) && |t.line| <= MAXSTRLEN
            && Edit(cfg, line, echoed, typed + rest) == if t.TooLong? then t else Edit(cfg, t.line, t.echoed, rest)
    decreases |typed|
  {
    hide TabWidth, Echo;
    if typed == [] {
      assert typed + rest == rest;
    } else {
      var c, more := typed[0], typed[1..];
      assert !Finishes(cfg, c) && forall x :: x in more ==> x in typed;
      assert (typed + rest)[0] == c && (typed + rest)[1..] == more + rest;
      if c <= 0 || c == CR || (c == BS && line == []) {
        EditGoesOn(cfg, line, echoed, more, rest);
      } else if c == TAB {
        var w := TabWidth(|line|);
        if |line| + w <= MAXSTRLEN {
          EditGoesOn(cfg, line + Spaces(w), echoed + Echo(cfg, Spaces(w)), more, rest);
        }
      } else if c == BS {
        EditGoesOn(cfg, line[..|line| - 1], echoed + Echo(cfg, [BS, SPACE, BS]), more, rest);
      } else if |line| + 1 <= MAXSTRLEN {
        EditGoesOn(cfg, line + [c], echoed + (if IsPrint(c) then Echo(cfg, [c]) else []), more, rest);
      }
    }
  }

  lemma {:induction false} FirstFinish(cfg: Config, input: Text) returns (k: nat)
    ensures k <= |input| && Open(cfg, input[..k]) && (k < |input| ==> Finishes(cfg, input[k]))
    decreases |input|
  {
    if input == [] || Finishes(cfg, input[0]) {
      k := 0;
    } else {
      var j := FirstFinish(cfg, input[1..]);
      k := j + 1;
      assert input[..k] == [input[0]] + input[1..][..j];
    }
  }

  /** What a finishing key makes of what was typed before it. */
  function Finished(cfg: Config, typed: Outcome, c: int): Outcome {
    if cfg.input.Console? && c in cfg.keys then
      if |typed.line| + |cfg.keys[c]| > MAXSTRLEN then Overrun(typed.line, typed.echoed)
      else Line(typed.line + cfg.keys[c], typed.echoed + Echo(cfg, cfg.keys[c] + [CR, LF]))
    else if c == LF then Line(typed.line, typed.echoed)
    else Line(typed.line, typed.echoed + [CR, LF])
  }

  /**
   The outcome is decided at the first finishing key, with echo on or off: it takes what was typed
   before it, unless that was too long already.
   */
  lemma LineEndsAtKey(cfg: Config, input: Text) returns (k: nat)
    requires !cfg.input.DiskFile?
    ensures k <= |input| && Open(cfg, input[..k]) && (k < |input| ==> Finishes(cfg, input[k]))
    ensures var typed := GetLine(cfg, input[..k]);
            && (typed.Waiting? || typed.TooLong?) && |typed.line| <= MAXSTRLEN
            && GetLine(cfg, input) == if k == |input| || typed.TooLong? then typed else Finished(cfg, typed, input[k])
  {
    k := FirstFinish(cfg, input);
    EditGoesOn(cfg, [], [], input[..k], input[k..]);
    assert input == input[..k] + input[k..];
  }

  /**
   A line is never longer than MAXSTRLEN. The copy of a macro overruns the caller's buffer exactly
   when the first finishing key is a function key whose macro, behind a line that was not too long
   already, would make it longer than MAXSTRLEN.
   */
  lemma MacroOverrunsIff(cfg: Config, input: Text) returns (k: nat)
    requires !cfg.input.DiskFile?
    ensures k <= |input| && Open(cfg, input[..k]) && (k < |input| ==> Finishes(cfg, input[k]))
    ensures |GetLine(cfg, input).line| <= MAXSTRLEN
    ensures GetLine(cfg, input).Overrun?
       <==> && k < |input| && cfg.input.Console? && input[k] in cfg.keys
            && GetLine(cfg, input[..k]).Waiting?
            && |GetLine(cfg, input[..k]).line| + |cfg.keys[input[k]]| > MAXSTRLEN
  {
    k := LineEndsAtKey(cfg, input);
  }

  lemma {:induction false} DiskLineFits(cfg: Config, line: Text, echoed: Text, input: Text)
    requires cfg.input.DiskFile? && |line| <= MAXSTRLEN
    ensures var o := Edit(cfg, line, echoed, input); |o.line| <= MAXSTRLEN && (o.Line? || o.TooLong?)
    decreases |input|
  {
    hide TabWidth;
    if input != [] {
      var c, rest := input[0], input[1..];
      if c <= 0 || c == CR || (c == BS && line == []) {
        DiskLineFits(cfg, line, echoed, rest);
      } else if c == TAB {
        var w := TabWidth(|line|);
        if |line| + w <= MAXSTRLEN {
          DiskLineFits(cfg, line + Spaces(w), echoed + Echo(cfg, Spaces(w)), rest);
        }
      } else if c == BS {
        DiskLineFits(cfg, line[..|line| - 1], echoed + Echo(cfg, [BS, SPACE, BS]), rest);
      } else if |line| + 1 <= MAXSTRLEN {
        DiskLineFits(cfg, line + [c], echoed + (if IsPrint(c) then Echo(cfg, [c]) else []), rest);
      }
    }
  }

  /** Characters the editor only collects. */
  predicate IsOrdinary(cfg: Config, c: int) {
    c > 0 && c != TAB && c != BS && c != LF && c != CR && (cfg.input.Console? ==> c !in cfg.keys)
  }

  predicate AllOrdinary(cfg: Config, text: Text) {
    forall k :: 0 <= k < |text| ==> IsOrdinary(cfg, text[k])
  }

  /** What an echoing console writes for collected characters: the printable ones. */
  function Printable(text: Text): Text {
    if text == [] then [] else (if 32 <= text[0] <= 126 then [text[0]] else []) + Printable(text[1..])
  }

  /** What ordinary characters write. */
  function EchoOf(cfg: Config, text: Text): Text {
    if Echoes(cfg) then Printable(text) else []
  }

  lemma EchoOfOne(cfg: Config, c: int)
    ensures EchoOf(cfg, [c]) == if Echoes(cfg) && IsPrint(c) then [c] else []
  {
    assert [c][1..] == [] && Printable([]) == [] && [c] + [] == [c];
  }

  lemma EchoOfCons(cfg: Config, c: int, more: Text)
    ensures EchoOf(cfg, [c] + more) == EchoOf(cfg, [c]) + EchoOf(cfg, more)
  {
    assert ([c] + more)[1..] == more;
    EchoOfOne(cfg, c);
  }

  lemma Associate(a: Text, b: Text, c: Text)
    ensures a + (b + c) == (a + b) + c
  {
  }

  /** One ordinary character: collected, and echoed if it is printable. */
  lemma OrdinaryCharacter(cfg: Config, line: Text, echoed: Text, c: int, rest: Text)
    requires IsOrdinary(cfg, c) && |line| <= MAXSTRLEN
    ensures Edit(cfg, line, echoed, [c] + rest)
         == if |line| < MAXSTRLEN then Edit(cfg, line + [c], echoed + EchoOf(cfg, [c]), rest)
            else TooLong(line, echoed + EchoOf(cfg, [c]))
  {
    hide EchoOf;
    EchoOfOne(cfg, c);
    assert ([c] + rest)[1..] == rest;
  }

  /** Ordinary characters come back as they are, and the printable ones are echoed. */
  lemma {:induction false} OrdinaryTextIsCollected(cfg: Config, line: Text, echoed: Text, text: Text, rest: Text)
    requires AllOrdinary(cfg, text) && |line| + |text| <= MAXSTRLEN
    ensures Edit(cfg, line, echoed, text + rest) == Edit(cfg, line + text, echoed + EchoOf(cfg, text), rest)
    decreases |text|
  {
    if text == [] {
      assert text + rest == rest && line + text == line && echoed + EchoOf(cfg, text) == echoed;
    } else {
      hide Edit, IsOrdinary, EchoOf;
      var c, more := text[0], text[1..];
      assert text == [c] + more;
      Associate([c], more, rest);
      Associate(line, [c], more);
      Associate(echoed, EchoOf(cfg, [c]), EchoOf(cfg, more));
      EchoOfCons(cfg, c, more);
      OrdinaryCharacter(cfg, line, echoed, c, more + rest);
      OrdinaryTextIsCollected(cfg, line + [c], echoed + EchoOf(cfg, [c]), more, rest);
    }
  }

  /** Beyond MAXSTRLEN they are an error, with the first MAXSTRLEN characters collected. */
  lemma OrdinaryTextIsTooLong(cfg: Config, text: Text, rest: Text)
    requires AllOrdinary(cfg, text) && |text| > MAXSTRLEN
    ensures var o := GetLine(cfg, text + rest);
            o.TooLong? && o.line == text[..MAXSTRLEN]
  {
    var fit, c, more := text[..MAXSTRLEN], text[MAXSTRLEN], text[MAXSTRLEN + 1..];
    hide Edit, IsOrdinary, EchoOf;
    OrdinaryTextIsCollected(cfg, [], [], fit, [c] + (more + rest));
    assert text + rest == fit + ([c] + (more + rest));
    assert [] + fit == fit;
    OrdinaryCharacter(cfg, fit, [] + EchoOf(cfg, fit), c, more + rest);
  }

  /** A line of a file or a serial port up to its LF, with a CR before it or not, comes back as it is. */
  lemma FileLineIsRead(cfg: Config, text: Text, rest: Text)
    requires !cfg.input.Console? && AllOrdinary(cfg, text) && |text| <= MAXSTRLEN
    ensures GetLine(cfg, text + ([LF] + rest)) == Line(text, [])
    ensures GetLine(cfg, text + ([CR, LF] + rest)) == Line(text, [])
    ensures GetLine(cfg, text) == if cfg.input.DiskFile? then Line(text, []) else Waiting(text, [])
  {
    assert [] + text == text;
    var crlf := [CR, LF] + rest;
    assert crlf[1..] == [LF] + rest && text + [] == text;
    OrdinaryTextIsCollected(cfg, [], [], text, [LF] + rest);
    OrdinaryTextIsCollected(cfg, [], [], text, crlf);
    OrdinaryTextIsCollected(cfg, [], [], text, []);
  }

  const F2 := 0x92
  const LETTER_A := 65
  const RUN: Text := [82, 85, 78]

  lemma {:induction false} TypedLetters(cfg: Config, line: Text, echoed: Text, n: nat)
    requires !cfg.input.DiskFile? && LETTER_A !in cfg.keys && |line| + n <= MAXSTRLEN
    ensures var o := Edit(cfg, line, echoed, Filled(n, LETTER_A));
            o.Waiting? && o.line == line + Filled(n, LETTER_A)
    decreases n
  {
    if n == 0 {
      assert line + Filled(0, LETTER_A) == line;
    } else {
      assert Filled(n, LETTER_A)[1..] == Filled(n - 1, LETTER_A);
      TypedLetters(cfg, line + [LETTER_A], echoed + Echo(cfg, [LETTER_A]), n - 1);
      assert line + Filled(n, LETTER_A) == (line + [LETTER_A]) + Filled(n - 1, LETTER_A);
    }
  }

  /** F2, which stands for RUN, still fits behind 252 letters; behind 253 it overruns the buffer. */
  lemma RunKeyOverruns(cfg: Config, n: nat)
    requires cfg.input.Console? && F2 in cfg.keys && cfg.keys[F2] == RUN && LETTER_A !in cfg.keys && n <= MAXSTRLEN
    ensures GetLine(cfg, Filled(n, LETTER_A) + [F2]).Overrun? <==> n >= 253
  {
    var typed := Filled(n, LETTER_A);
    TypedLetters(cfg, [], [], n);
    assert [] + typed == typed;
    EditGoesOn(cfg, [], [], typed, [F2]);
  }

  // ---------- the terminal ----------

  /** One terminal line: the cells written to, and the column of the cursor. */
  datatype Terminal = Terminal(cells: map<int, int>, column: int)

  function Cell(t: Terminal, k: int): int {
    if k in t.cells then t.cells[k] else SPACE
  }

  function Show(t: Terminal, s: Text): Terminal
    decreases |s|
  {
    if s == [] then t
    else if s[0] == BS then Show(t.(column := t.column - 1), s[1..])
    else Show(Terminal(t.cells[t.column := s[0]], t.column + 1), s[1..])
  }

  const Blank := Terminal(map[], 0)

  /** The terminal shows exactly `line`, followed by blanks, with the cursor behind it. */
  ghost predicate Displays(t: Terminal, line: Text) {
    && t.column == |line|
    && forall k: int :: Cell(t, k) == if 0 <= k < |line| then line[k] else SPACE
  }

  lemma {:induction false} ShowAppend(t: Terminal, a: Text, b: Text)
    ensures Show(t, a + b) == Show(Show(t, a), b)
    decreases |a|
  {
    if a == [] {
      assert a + b == b;
    } else {
      assert (a + b)[1..] == a[1..] + b;
      if a[0] == BS {
        ShowAppend(t.(column := t.column - 1), a[1..], b);
      } else {
        ShowAppend(Terminal(t.cells[t.column := a[0]], t.column + 1), a[1..], b);
      }
    }
  }

  lemma ShowOne(t: Terminal, c: int)
    ensures Show(t, [c]) == if c == BS then t.(column := t.column - 1) else Terminal(t.cells[t.column := c], t.column + 1)
  {
    assert [c][1..] == [];
  }

  lemma ShowErase(t: Terminal)
    ensures Show(t, [BS, SPACE, BS]) == Terminal(t.cells[t.column - 1 := SPACE], t.column - 1)
  {
    assert [BS, SPACE, BS] == [BS] + [SPACE] + [BS];
    ShowAppend(t, [BS] + [SPACE], [BS]);
    ShowAppend(t, [BS], [SPACE]);
    ShowOne(t, BS);
    ShowOne(t.(column := t.column - 1), SPACE);
    ShowOne(Show(t.(column := t.column - 1), [SPACE]), BS);
  }

  lemma DisplaysWritten(t: Terminal, line: Text, c: int)
    requires Displays(t, line) && c != BS
    ensures Displays(Show(t, [c]), line + [c])
  {
    ShowOne(t, c);
    var u := Show(t, [c]);
    forall k: int
      ensures Cell(u, k) == if 0 <= k < |line| + 1 then (line + [c])[k] else SPACE
    {
      assert k != |line| ==> Cell(u, k) == Cell(t, k);
    }
  }

  lemma DisplaysErased(t: Terminal, line: Text)
    requires Displays(t, line) && line != []
    ensures Displays(Show(t, [BS, SPACE, BS]), line[..|line| - 1])
  {
    ShowErase(t);
    var u := Show(t, [BS, SPACE, BS]);
    forall k: int
      ensures Cell(u, k) == if 0 <= k < |line| - 1 then line[k] else SPACE
    {
      assert k != |line| - 1 ==> Cell(u, k) == Cell(t, k);
    }
  }

  lemma {:induction false} ShowSpaces(t: Terminal, line: Text, k: nat)
    requires Displays(t, line)
    ensures Displays(Show(t, Spaces(k)), line + Spaces(k))
    decreases k
  {
    if k == 0 {
      assert line + Spaces(0) == line;
    } else {
      ShowSpaces(t, line, k - 1);
      var u := Show(t, Spaces(k - 1));
      assert Spaces(k) == Spaces(k - 1) + [SPACE];
      ShowAppend(t, Spaces(k - 1), [SPACE]);
      DisplaysWritten(u, line + Spaces(k - 1), SPACE);
      assert line + Spaces(k) == (line + Spaces(k - 1)) + [SPACE];
    }
  }

  /** Characters that are neither shown nor handled by the editor but are put into the line. */
  predicate Unseen(c: int) {
    c > 0 && !IsPrint(c) && c != TAB && c != BS && c != LF && c != CR
  }

  function UnseenCount(input: Text): nat {
    if input == [] then 0 else (if Unseen(input[0]) then 1 else 0) + UnseenCount(input[1..])
  }

  lemma {:induction false} UnseenCountIsZero(input: Text)
    ensures UnseenCount(input) == 0 <==> forall c :: c in input ==> !Unseen(c)
    decreases |input|
  {
    if input != [] {
      UnseenCountIsZero(input[1..]);
      assert forall c :: c in input <==> c == input[0] || c in input[1..];
    }
  }

  lemma {:induction false} ShowSpacesMoves(t: Terminal, k: nat)
    ensures Show(t, Spaces(k)).column == t.column + k
    decreases k
  {
    if k > 0 {
      assert Spaces(k)[1..] == Spaces(k - 1);
      ShowSpacesMoves(Terminal(t.cells[t.column := SPACE], t.column + 1), k - 1);
    }
  }

  /** Every unseen character ever typed leaves the cursor one column short, even after it is erased. */
  lemma {:induction false} CursorLag(cfg: Config, line: Text, echoed: Text, input: Text)
    requires Echoes(cfg) && Edit(cfg, line, echoed, input).Waiting?
    ensures var o := Edit(cfg, line, echoed, input);
            Show(Blank, o.echoed).column - |o.line|
            == Show(Blank, echoed).column - |line| - UnseenCount(input)
    decreases |input|
  {
    if input != [] {
      var c, rest := input[0], input[1..];
      var t := Show(Blank, echoed);
      if c <= 0 {
        CursorLag(cfg, line, echoed, rest);
      } else if c == TAB {
        var w := TabWidth(|line|);
        ShowAppend(Blank, echoed, Spaces(w));
        ShowSpacesMoves(t, w);
        CursorLag(cfg, line + Spaces(w), echoed + Spaces(w), rest);
      } else if c == BS {
        if line == [] {
          CursorLag(cfg, line, echoed, rest);
        } else {
          ShowAppend(Blank, echoed, [BS, SPACE, BS]);
          ShowErase(t);
          CursorLag(cfg, line[..|line| - 1], echoed + [BS, SPACE, BS], rest);
        }
      } else if IsPrint(c) {
        ShowAppend(Blank, echoed, [c]);
        ShowOne(t, c);
        CursorLag(cfg, line + [c], echoed + [c], rest);
      } else {
        assert echoed + [] == echoed;
        CursorLag(cfg, line + [c], echoed, rest);
      }
    }
  }

  lemma {:induction false} DisplayFollows(cfg: Config, line: Text, echoed: Text, input: Text)
    requires Echoes(cfg) && Edit(cfg, line, echoed, input).Waiting?
    requires Displays(Show(Blank, echoed), line) && forall c :: c in input ==> !Unseen(c)
    ensures var o := Edit(cfg, line, echoed, input); Displays(Show(Blank, o.echoed), o.line)
    decreases |input|
  {
    hide Displays;
    if input != [] {
      var c, rest := input[0], input[1..];
      assert c in input && forall x :: x in rest ==> x in input;
      var t := Show(Blank, echoed);
      if c <= 0 {
        DisplayFollows(cfg, line, echoed, rest);
      } else if c == TAB {
        var w := TabWidth(|line|);
        ShowAppend(Blank, echoed, Spaces(w));
        ShowSpaces(t, line, w);
        DisplayFollows(cfg, line + Spaces(w), echoed + Spaces(w), rest);
      } else if c == BS {
        if line == [] {
          DisplayFollows(cfg, line, echoed, rest);
        } else {
          ShowAppend(Blank, echoed, [BS, SPACE, BS]);
          DisplaysErased(t, line);
          DisplayFollows(cfg, line[..|line| - 1], echoed + [BS, SPACE, BS], rest);
        }
      } else {
        ShowAppend(Blank, echoed, [c]);
        DisplaysWritten(t, line, c);
        DisplayFollows(cfg, line + [c], echoed + [c], rest);
      }
    }
  }

  /**
   While a line is being typed at the console with echo on, the terminal shows exactly the line
   collected so far with the cursor at its end if and only if nothing unseen was typed.
   */
  lemma TerminalShowsLine(cfg: Config, input: Text)
    requires Echoes(cfg) && GetLine(cfg, input).Waiting?
    ensures var o := GetLine(cfg, input);
            Displays(Show(Blank, o.echoed), o.line) <==> forall c :: c in input ==> !Unseen(c)
  {
    UnseenCountIsZero(input);
    CursorLag(cfg, [], [], input);
    if forall c :: c in input ==> !Unseen(c) {
      DisplayFollows(cfg, [], [], input);
    }
  }

  // ---------- a finished line ----------

  lemma {:induction false} ShowMacro(t: Terminal, line: Text, text: Text)
    requires forall x :: x in text ==> IsPrint(x)
    ensures Show(t, text).column == t.column + |text|
    ensures Displays(t, line) ==> Displays(Show(t, text), line + text)
    decreases |text|
  {
    hide Displays;
    if text == [] {
      assert line + text == line;
    } else {
      assert text == [text[0]] + text[1..] && text[0] in text && forall x :: x in text[1..] ==> x in text;
      ShowAppend(t, [text[0]], text[1..]);
      ShowOne(t, text[0]);
      ShowMacro(Show(t, [text[0]]), line + [text[0]], text[1..]);
      if Displays(t, line) {
        DisplaysWritten(t, line, text[0]);
        assert line + text == (line + [text[0]]) + text[1..];
      }
    }
  }

  /**
   Before the closing line break is echoed, the terminal shows exactly the finished line, macro
   included, if and only if nothing unseen was typed before the finishing key.
   */
  lemma TerminalShowsFinishedLine(cfg: Config, input: Text) returns (k: nat)
    requires Echoes(cfg) && GetLine(cfg, input).Line?
    requires forall c :: c in cfg.keys ==> forall x :: x in cfg.keys[c] ==> IsPrint(x)
    ensures k < |input| && Open(cfg, input[..k]) && Finishes(cfg, input[k])
    ensures var o := GetLine(cfg, input);
            var broken := input[k] in cfg.keys || input[k] == CR;
            && |o.echoed| >= (if broken then 2 else 0)
            && var shown := if broken then o.echoed[..|o.echoed| - 2] else o.echoed;
            && o.echoed == shown + (if broken then [CR, LF] else [])
            && (Displays(Show(Blank, shown), o.line) <==> forall c :: c in input[..k] ==> !Unseen(c))
  {
    k := LineEndsAtKey(cfg, input);
    var typed, c := GetLine(cfg, input[..k]), input[k];
    var text := if c in cfg.keys then cfg.keys[c] else [];
    var o := GetLine(cfg, input);
    assert o.line == typed.line + text;
    var shown := typed.echoed + text;
    assert o.echoed == if c in cfg.keys || c == CR then shown + [CR, LF] else shown;
    ShowAppend(Blank, typed.echoed, text);
    ShowMacro(Show(Blank, typed.echoed), typed.line, text);
    TerminalShowsLine(cfg, input[..k]);
    UnseenCountIsZero(input[..k]);
    CursorLag(cfg, [], [], input[..k]);
  }

  // ---------- tabs and backspaces ----------

  /** A tab typed at any point of a line takes it to the next multiple of four. */
  lemma TabsLandOnMultiplesOfFour(cfg: Config, line: Text, echoed: Text, rest: Text)
    requires |line| < MAXSTRLEN - 3 && TAB !in cfg.keys
    ensures exists w: nat :: 1 <= w <= 4 && (|line| + w) % 4 == 0
              && Edit(cfg, line, echoed, [TAB] + rest)
              == Edit(cfg, line + Spaces(w), echoed + Echo(cfg, Spaces(w)), rest)
  {
    assert ([TAB] + rest)[1..] == rest;
    var w := TabWidth(|line|);
    assert Edit(cfg, line, echoed, [TAB] + rest) == Edit(cfg, line + Spaces(w), echoed + Echo(cfg, Spaces(w)), rest);
  }

  lemma BackspaceErases(cfg: Config, line: Text, echoed: Text, rest: Text)
    requires BS !in cfg.keys && line != []
    ensures Edit(cfg, line, echoed, [BS] + rest)
         == Edit(cfg, line[..|line| - 1], echoed + Echo(cfg, [BS, SPACE, BS]), rest)
  {
    assert ([BS] + rest)[1..] == rest;
  }

  /** A printable character and a backspace after it leave the line as it was. */
  lemma BackspaceUndoesKey(cfg: Config, line: Text, echoed: Text, c: int, rest: Text)
    requires Echoes(cfg) && IsPrint(c) && c !in cfg.keys && BS !in cfg.keys && |line| < MAXSTRLEN
    ensures Edit(cfg, line, echoed, [c, BS] + rest) == Edit(cfg, line, echoed + [c, BS, SPACE, BS], rest)
  {
    hide Edit, EchoOf;
    EchoOfOne(cfg, c);
    assert [c, BS] + rest == [c] + ([BS] + rest);
    OrdinaryCharacter(cfg, line, echoed, c, [BS] + rest);
    BackspaceErases(cfg, line + [c], echoed + [c], rest);
    assert (line + [c])[..|line|] == line;
    assert echoed + [c] + [BS, SPACE, BS] == echoed + [c, BS, SPACE, BS];
  }
}
