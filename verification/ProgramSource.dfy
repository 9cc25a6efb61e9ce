/**
 Reading BASIC source into program memory (runtime/runtime_program.c): joining continued
 lines, following OPTION CONTINUATION LINES through the file, and packing tokenised lines.
 */
module ProgramSource {
  import opened Wrappers

  const STRINGSIZE := 256
  /** The size of the line buffer, one more than STRINGSIZE. */
  const CAP := STRINGSIZE + 1
  const OFF := '\0'

  // ---------- the specification, on the text still to be read ----------

  predicate IsEol(c: char) {
    c == '\r' || c == '\n'
  }

  predicate IsBlank(c: char) {
    c == ' ' || c == '\t'
  }

  predicate IsDigit(c: char) {
    '0' <= c <= '9'
  }

  /** Characters before the end of the first line. */
  function LineLength(s: string): (n: nat)
    ensures n <= |s| && (n < |s| ==> IsEol(s[n]))
    ensures forall k :: 0 <= k < n ==> !IsEol(s[k])
    decreases |s|
  {
    if s == [] || IsEol(s[0]) then 0 else 1 + LineLength(s[1..])
  }

  /** The text after one line end, which is CR, LF or CR LF. */
  function SkipEnd(s: string): (r: string)
    ensures |r| <= |s| && (s != [] && IsEol(s[0]) ==> |r| < |s|)
  {
    var t := if s != [] && s[0] == '\r' then s[1..] else s;
    if t != [] && t[0] == '\n' then t[1..] else t
  }

  predicate Continues(out: string, cont: char) {
    cont != OFF && |out| >= 2 && out[|out| - 2] == ' ' && out[|out| - 1] == cont
  }

  /** What of a line fits behind `out` in the buffer. */
  function Fitting(out: string, line: string): string
    requires |out| < CAP
  {
    if |out| + |line| > CAP - 1 then line[..CAP - 1 - |out|] else line
  }

  /** Physical lines joined to `out` until one is not continued; the text left and the line. */
  function Join(s: string, out: string, cont: char): (r: (string, string))
    requires |out| < CAP
    ensures |r.0| <= |s| && (s != [] ==> |r.0| < |s|) && |r.1| < CAP
    decreases |s|
  {
    if s == [] then (s, out) else
    var n := LineLength(s);
    var joined := out + Fitting(out, s[..n]);
    var rest := SkipEnd(s[n..]);
    if Continues(joined, cont) then Join(rest, joined[..|joined| - 2], cont) else (rest, joined)
  }

  function SkipBlanks(s: string): (r: string)
    ensures |r| <= |s|
    decreases |s|
  {
    if s != [] && IsBlank(s[0]) then SkipBlanks(s[1..]) else s
  }

  function SkipDigits(s: string): (r: string)
    ensures |r| <= |s|
    decreases |s|
  {
    if s != [] && IsDigit(s[0]) then SkipDigits(s[1..]) else s
  }

  function Lower(c: char): char {
    if 'A' <= c <= 'Z' then c - 'A' + 'a' else c
  }

  predicate StartsWithCi(s: string, prefix: string) {
    |prefix| <= |s| && forall k :: 0 <= k < |prefix| ==> Lower(s[k]) == Lower(prefix[k])
  }

  /** A statement without its line number. */
  function Statement(line: string): string {
    var p := SkipBlanks(line);
    if p != [] && IsDigit(p[0]) then SkipBlanks(SkipDigits(p)) else p
  }

  /** The continuation character in force after a line. */
  function Setting(line: string, cont: char): char {
    var p := Statement(line);
    if StartsWithCi(p, "OPTION CONTINUATION LINES ON") || StartsWithCi(p, "OPTION CONTINUATION LINES ENABLE") then '_'
    else if StartsWithCi(p, "OPTION CONTINUATION LINES OFF") || StartsWithCi(p, "OPTION CONTINUATION LINES DISABLE") then OFF
    else cont
  }

  /** Every logical line of the text; in batch mode lines are not joined and settings not followed. */
  function ReadAll(s: string, cont: char, batch: bool): seq<string>
    decreases |s|
  {
    if s == [] then [] else
    var (rest, line) := Join(s, "", if batch then OFF else cont);
    [line] + ReadAll(rest, if batch then cont else Setting(line, cont), batch)
  }

  // ---------- breaking lines ----------

  /** A logical line cut into pieces, with the line end after each piece. */
  datatype Broken = Broken(pieces: seq<string>, ends: seq<string>)

  function Concat(pieces: seq<string>): string {
    if pieces == [] then "" else pieces[0] + Concat(pieces[1..])
  }

  /** The physical lines: every piece but the last is followed by a space and the continuation character. */
  function Text(pieces: seq<string>, ends: seq<string>, cont: char): string
    requires |pieces| == |ends|
    decreases |pieces|
  {
    if pieces == [] then ""
    else if |pieces| == 1 then pieces[0] + ends[0]
    else pieces[0] + [' ', cont] + ends[0] + Text(pieces[1..], ends[1..], cont)
  }

  predicate IsText(s: string) {
    forall k :: 0 <= k < |s| ==> !IsEol(s[k]) && s[k] != OFF
  }

  /** `end` ends a line when `next` follows it. Nothing may end the last line of the file. */
  predicate EndsLine(end: string, next: string) {
    || end == "\n" || end == "\r\n"
    || (end == "\r" && (next == [] || next[0] != '\n'))
    || (end == "" && next == [])
  }

  /** Each physical line fits the buffer behind what `out` already holds, and is ended properly. */
  ghost predicate Fits(pieces: seq<string>, ends: seq<string>, out: string, cont: char, rest: string)
    requires |pieces| == |ends|
    decreases |pieces|
  {
    pieces != [] && IsText(pieces[0]) &&
    var joined := out + pieces[0];
    if |pieces| == 1 then
      |joined| < CAP && !Continues(joined, cont) && EndsLine(ends[0], rest)
    else
      && cont != OFF && !IsEol(cont)
      && |joined| + 2 < CAP
      && EndsLine(ends[0], Text(pieces[1..], ends[1..], cont) + rest)
      && Fits(pieces[1..], ends[1..], joined, cont, rest)
  }

  lemma {:induction false} LineLengthOf(line: string, rest: string)
    requires forall k :: 0 <= k < |line| ==> !IsEol(line[k])
    requires rest == [] || IsEol(rest[0])
    ensures LineLength(line + rest) == |line|
    decreases |line|
  {
    if line == [] {
      assert line + rest == rest;
    } else {
      assert (line + rest)[1..] == line[1..] + rest;
      LineLengthOf(line[1..], rest);
    }
  }

  lemma SkipEndOf(end: string, next: string)
    requires EndsLine(end, next)
    ensures end + next == [] || IsEol((end + next)[0])
    ensures SkipEnd(end + next) == next
  {
    if end == "\n" {
      assert (end + next)[1..] == next;
    } else if end == "\r\n" {
      assert (end + next)[1..] == "\n" + next;
      assert ("\n" + next)[1..] == next;
    } else if end == "\r" {
      assert (end + next)[1..] == next;
    } else {
      assert end + next == [];
    }
  }

  /** One physical line with its end is taken whole. */
  lemma TakePhysicalLine(line: string, end: string, next: string)
    requires (forall k :: 0 <= k < |line| ==> !IsEol(line[k])) && EndsLine(end, next)
    ensures var s := line + end + next;
            LineLength(s) == |line| && s[..|line|] == line && SkipEnd(s[|line|..]) == next
  {
    var s := line + end + next;
    assert s == line + (end + next);
    SkipEndOf(end, next);
    LineLengthOf(line, end + next);
    assert s[|line|..] == end + next;
  }

  lemma JoinTakesLine(line: string, end: string, next: string, out: string, cont: char)
    requires (forall k :: 0 <= k < |line| ==> !IsEol(line[k])) && EndsLine(end, next)
    requires |out| + |line| < CAP && line + end + next != []
    ensures Join(line + end + next, out, cont)
         == if Continues(out + line, cont) then Join(next, (out + line)[..|out + line| - 2], cont)
            else (next, out + line)
  {
    hide Continues, EndsLine;
    TakePhysicalLine(line, end, next);
  }

  /**
   A physical line that does not fit the buffer behind what is joined already loses its tail, and
   with it its own continuation mark; what is left decides whether the next line is joined.
   */
  lemma LongLineIsCut(line: string, end: string, next: string, out: string, cont: char)
    requires (forall k :: 0 <= k < |line| ==> !IsEol(line[k])) && EndsLine(end, next)
    requires |out| < CAP <= |out| + |line|
    ensures var cut := (out + line)[..CAP - 1];
            (Join(line + end + next, out, cont)
            == if Continues(cut, cont) then Join(next, cut[..CAP - 3], cont) else (next, cut))
  {
    hide EndsLine, Continues;
    TakePhysicalLine(line, end, next);
    assert out + Fitting(out, line) == (out + line)[..CAP - 1];
  }

  lemma {:induction false} JoinUndoesBreaking(pieces: seq<string>, ends: seq<string>, out: string, cont: char, rest: string)
    requires |pieces| == |ends| && |out| < CAP && Fits(pieces, ends, out, cont, rest)
    requires Text(pieces, ends, cont) + rest != [] || !Continues(out, cont)
    ensures Join(Text(pieces, ends, cont) + rest, out, cont) == (rest, out + Concat(pieces))
    decreases |pieces|
  {
    hide Continues, EndsLine, IsText, Join;
    var s := Text(pieces, ends, cont) + rest;
    var joined := out + pieces[0];
    if |pieces| == 1 {
      assert Concat(pieces[1..]) == "";
      assert joined == out + Concat(pieces);
      PlainText(pieces[0]);
      if s != [] {
        JoinTakesLine(pieces[0], ends[0], rest, out, cont);
      } else {
        assert joined == out;
        JoinNothing(out, cont);
      }
    } else {
      var line := pieces[0] + [' ', cont];
      var next := Text(pieces[1..], ends[1..], cont) + rest;
      assert s == line + ends[0] + next;
      PlainText(pieces[0]);
      assert out + line == joined + [' ', cont];
      JoinTakesLine(line, ends[0], next, out, cont);
      MarkedLineContinues(joined, cont);
      FitsMeansUnmarked(pieces[1..], ends[1..], joined, cont, rest);
      JoinUndoesBreaking(pieces[1..], ends[1..], joined, cont, rest);
      assert joined + Concat(pieces[1..]) == out + Concat(pieces);
    }
  }

  lemma PlainText(s: string)
    requires IsText(s)
    ensures forall k :: 0 <= k < |s| ==> !IsEol(s[k])
  {
  }

  lemma JoinNothing(out: string, cont: char)
    requires |out| < CAP
    ensures Join("", out, cont) == ("", out)
  {
  }

  lemma MarkedLineContinues(line: string, cont: char)
    requires cont != OFF
    ensures var m := line + [' ', cont]; Continues(m, cont) && m[..|m| - 2] == line
  {
  }

  lemma FitsMeansUnmarked(pieces: seq<string>, ends: seq<string>, out: string, cont: char, rest: string)
    requires |pieces| == |ends| && Fits(pieces, ends, out, cont, rest)
    ensures Text(pieces, ends, cont) + rest != [] || !Continues(out, cont)
  {
    if |pieces| == 1 && pieces[0] == "" {
      assert out + pieces[0] == out;
    }
  }

  // ---------- whole files ----------

  function FileText(lines: seq<Broken>, cont: char): string
    requires forall b :: b in lines ==> |b.pieces| == |b.ends|
    decreases |lines|
  {
    if lines == [] then "" else
    Text(lines[0].pieces, lines[0].ends, cont) + FileText(lines[1..], Setting(Concat(lines[0].pieces), cont))
  }

  /** Every line is broken only where continuation is in force at that point of the file. */
  ghost predicate WellBroken(lines: seq<Broken>, cont: char)
    requires forall b :: b in lines ==> |b.pieces| == |b.ends|
    decreases |lines|
  {
    lines != [] ==>
      var next := Setting(Concat(lines[0].pieces), cont);
      var rest := FileText(lines[1..], next);
      && Text(lines[0].pieces, lines[0].ends, cont) != []
      && Fits(lines[0].pieces, lines[0].ends, "", cont, rest)
      && WellBroken(lines[1..], next)
  }

  function LogicalLines(lines: seq<Broken>): seq<string> {
    if lines == [] then [] else [Concat(lines[0].pieces)] + LogicalLines(lines[1..])
  }

  /** However the lines of a file are broken, reading gives the logical lines back in order. */
  lemma {:induction false} ReadingUndoesBreaking(lines: seq<Broken>, cont: char)
    requires forall b :: b in lines ==> |b.pieces| == |b.ends|
    requires WellBroken(lines, cont)
    ensures ReadAll(FileText(lines, cont), cont, false) == LogicalLines(lines)
    decreases |lines|
  {
    if lines != [] {
      var b, next := lines[0], Setting(Concat(lines[0].pieces), cont);
      JoinUndoesBreaking(b.pieces, b.ends, "", cont, FileText(lines[1..], next));
      assert "" + Concat(b.pieces) == Concat(b.pieces);
      ReadingUndoesBreaking(lines[1..], next);
    }
  }

  /** The tokeniser's input buffer holds a logical line and a zero unless the line has STRINGSIZE characters. */
  predicate Overruns(line: string) {
    |line| >= STRINGSIZE
  }

  predicate AnyOverruns(lines: seq<string>) {
    exists line :: line in lines && Overruns(line)
  }

  /** Reading a file of broken lines overruns that buffer if and only if a line has STRINGSIZE characters. */
  lemma FileOverrunsIff(lines: seq<Broken>, cont: char)
    requires forall b :: b in lines ==> |b.pieces| == |b.ends|
    requires WellBroken(lines, cont)
    ensures AnyOverruns(ReadAll(FileText(lines, cont), cont, false))
       <==> exists b :: b in lines && |Concat(b.pieces)| >= STRINGSIZE
  {
    ReadingUndoesBreaking(lines, cont);
    hide Concat, WellBroken, FileText, ReadAll;
    var all := LogicalLines(lines);
    LogicalLineAt(lines);
    if AnyOverruns(all) {
      var k :| 0 <= k < |all| && Overruns(all[k]);
      assert lines[k] in lines;
    }
    if exists b :: b in lines && |Concat(b.pieces)| >= STRINGSIZE {
      var k :| 0 <= k < |lines| && |Concat(lines[k].pieces)| >= STRINGSIZE;
      assert all[k] in all && Overruns(all[k]);
    }
  }

  lemma {:induction false} LogicalLineAt(lines: seq<Broken>)
    ensures |LogicalLines(lines)| == |lines|
    ensures forall k :: 0 <= k < |lines| ==> LogicalLines(lines)[k] == Concat(lines[k].pieces)
    decreases |lines|
  {
    if lines != [] {
      LogicalLineAt(lines[1..]);
    }
  }

  /** In batch reading it is overrun by every physical line of STRINGSIZE characters or more. */
  lemma PhysicalLineOverrunsIff(line: string, end: string, next: string)
    requires (forall k :: 0 <= k < |line| ==> !IsEol(line[k])) && EndsLine(end, next) && line + end + next != []
    ensures Overruns(Join(line + end + next, "", OFF).1) <==> |line| >= STRINGSIZE
  {
    hide EndsLine, Join;
    assert "" + line == line;
    if |line| >= CAP {
      LongLineIsCut(line, end, next, "", OFF);
    } else {
      JoinTakesLine(line, end, next, "", OFF);
    }
  }

  /** In batch mode the same holds for unbroken lines, whatever they say or end with. */
  lemma {:induction false} BatchReadsPhysicalLines(lines: seq<Broken>, cont: char)
    requires forall b :: b in lines ==> |b.pieces| == 1 == |b.ends| && IsText(b.pieces[0]) && |b.pieces[0]| < CAP
    requires forall k :: 0 <= k < |lines| ==>
               EndsLine(lines[k].ends[0], FileText(lines[k + 1..], OFF)) && lines[k].pieces[0] + lines[k].ends[0] != ""
    ensures ReadAll(FileText(lines, OFF), cont, true) == LogicalLines(lines)
    decreases |lines|
  {
    hide EndsLine, Setting, IsText;
    if lines != [] {
      var b := lines[0];
      PlainText(b.pieces[0]);
      assert b in lines && lines[0 + 1..] == lines[1..];
      TextIgnoresSetting(lines[1..], Setting(Concat(b.pieces), OFF), OFF);
      assert Concat(b.pieces[1..]) == "" && Concat(b.pieces) == b.pieces[0];
      TakePhysicalLine(b.pieces[0], b.ends[0], FileText(lines[1..], OFF));
      assert "" + b.pieces[0] == b.pieces[0];
      forall k | 0 <= k < |lines[1..]|
        ensures EndsLine(lines[1..][k].ends[0], FileText(lines[1..][k + 1..], OFF))
             && lines[1..][k].pieces[0] + lines[1..][k].ends[0] != ""
      {
        assert lines[1..][k + 1..] == lines[k + 2..];
      }
      BatchReadsPhysicalLines(lines[1..], cont);
    }
  }

  lemma {:induction false} TextIgnoresSetting(lines: seq<Broken>, a: char, b: char)
    requires forall l :: l in lines ==> |l.pieces| == 1 == |l.ends|
    ensures FileText(lines, a) == FileText(lines, b)
    decreases |lines|
  {
    if lines != [] {
      var l := Concat(lines[0].pieces);
      TextIgnoresSetting(lines[1..], Setting(l, a), Setting(l, b));
    }
  }

  // ---------- switching continuation ----------

  /** The letters of `key`, a text in capitals, in any case. */
  predicate InAnyCase(s: string, key: string) {
    |s| == |key| && forall k :: 0 <= k < |s| ==>
      s[k] == key[k] || ('A' <= key[k] <= 'Z' && s[k] as int == key[k] as int + 32)
  }

  predicate AllBlanks(s: string) {
    forall k :: 0 <= k < |s| ==> s[k] == ' ' || s[k] == '\t'
  }

  predicate AllDecimal(s: string) {
    forall k :: 0 <= k < |s| ==> '0' <= s[k] <= '9'
  }

  const CONTINUATION_ON := "OPTION CONTINUATION LINES ON"
  const CONTINUATION_ENABLE := "OPTION CONTINUATION LINES ENABLE"
  const CONTINUATION_OFF := "OPTION CONTINUATION LINES OFF"
  const CONTINUATION_DISABLE := "OPTION CONTINUATION LINES DISABLE"

  /** s starts with the phrase in any case of letters. */
  predicate Says(s: string, key: string) {
    |key| <= |s| && InAnyCase(s[..|key|], key)
  }

  /** Blanks, a line number with blanks behind it, or neither. */
  predicate IsMargin(blanks: string, number: string, more: string) {
    AllBlanks(blanks) && AllDecimal(number) && AllBlanks(more) && (number == "" ==> more == "")
  }

  lemma {:induction false} SkipBlanksOf(blanks: string, rest: string)
    requires AllBlanks(blanks) && (rest != "" ==> rest[0] != ' ' && rest[0] != '\t')
    ensures SkipBlanks(blanks + rest) == rest
    decreases |blanks|
  {
    if blanks == "" {
      assert blanks + rest == rest;
    } else {
      assert (blanks + rest)[1..] == blanks[1..] + rest;
      SkipBlanksOf(blanks[1..], rest);
    }
  }

  lemma {:induction false} SkipDigitsOf(number: string, rest: string)
    requires AllDecimal(number) && (rest != "" ==> !('0' <= rest[0] <= '9'))
    ensures SkipDigits(number + rest) == rest
    decreases |number|
  {
    if number == "" {
      assert number + rest == rest;
    } else {
      assert (number + rest)[1..] == number[1..] + rest;
      SkipDigitsOf(number[1..], rest);
    }
  }

  lemma StatementOf(blanks: string, number: string, more: string, stmt: string)
    requires IsMargin(blanks, number, more)
    requires stmt != "" ==> stmt[0] != ' ' && stmt[0] != '\t' && !('0' <= stmt[0] <= '9')
    ensures Statement(blanks + number + more + stmt) == stmt
  {
    hide SkipBlanks, SkipDigits;
    var rest := more + stmt;
    assert blanks + number + more + stmt == blanks + (number + rest);
    SkipBlanksOf(blanks, number + rest);
    if number == "" {
      assert number + rest == stmt;
    } else {
      SkipDigitsOf(number, rest);
      SkipBlanksOf(more, stmt);
    }
  }

  lemma LowerMatches(c: char, k: char)
    requires !('a' <= k <= 'z')
    ensures Lower(c) == Lower(k) <==> c == k || ('A' <= k <= 'Z' && c as int == k as int + 32)
  {
  }

  lemma StartsWithMeansSays(s: string, key: string)
    requires forall k :: 0 <= k < |key| ==> !('a' <= key[k] <= 'z')
    ensures StartsWithCi(s, key) <==> Says(s, key)
  {
    forall k | 0 <= k < |key| && k < |s|
      ensures Lower(s[k]) == Lower(key[k]) <==> s[k] == key[k] || ('A' <= key[k] <= 'Z' && s[k] as int == key[k] as int + 32)
    {
      LowerMatches(s[k], key[k]);
    }
    hide Lower;
    if |key| <= |s| {
      assert forall k :: 0 <= k < |key| ==> s[..|key|][k] == s[k];
    }
  }

  /**
   Behind a margin, ON and ENABLE in any case of letters make '_' the continuation character, OFF
   and DISABLE switch continuation off, whatever follows them, and any other statement leaves it.
   */
  lemma SettingFollowsOption(blanks: string, number: string, more: string, stmt: string, cont: char)
    requires IsMargin(blanks, number, more)
    requires stmt != "" ==> stmt[0] != ' ' && stmt[0] != '\t' && !('0' <= stmt[0] <= '9')
    ensures Setting(blanks + number + more + stmt, cont)
         == if Says(stmt, CONTINUATION_ON) || Says(stmt, CONTINUATION_ENABLE) then '_'
            else if Says(stmt, CONTINUATION_OFF) || Says(stmt, CONTINUATION_DISABLE) then '\0'
            else cont
    ensures !((Says(stmt, CONTINUATION_ON) || Says(stmt, CONTINUATION_ENABLE))
              && (Says(stmt, CONTINUATION_OFF) || Says(stmt, CONTINUATION_DISABLE)))
  {
    StatementOf(blanks, number, more, stmt);
    OptionsExclude(stmt);
    StartsWithMeansSays(stmt, CONTINUATION_ON);
    StartsWithMeansSays(stmt, CONTINUATION_ENABLE);
    StartsWithMeansSays(stmt, CONTINUATION_OFF);
    StartsWithMeansSays(stmt, CONTINUATION_DISABLE);
    hide Statement, StartsWithCi, Says;
  }

  lemma SaysAt(s: string, key: string, k: nat)
    requires Says(s, key) && k < |key|
    ensures s[k] == key[k] || s[k] as int == key[k] as int + 32
  {
    assert s[k] == s[..|key|][k];
  }

  lemma OptionsExclude(stmt: string)
    ensures !((Says(stmt, CONTINUATION_ON) || Says(stmt, CONTINUATION_ENABLE))
              && (Says(stmt, CONTINUATION_OFF) || Says(stmt, CONTINUATION_DISABLE)))
  {
    hide Says;
    if Says(stmt, CONTINUATION_ON) { SaysAt(stmt, CONTINUATION_ON, 26); SaysAt(stmt, CONTINUATION_ON, 27); }
    if Says(stmt, CONTINUATION_ENABLE) { SaysAt(stmt, CONTINUATION_ENABLE, 26); }
    if Says(stmt, CONTINUATION_OFF) { SaysAt(stmt, CONTINUATION_OFF, 26); SaysAt(stmt, CONTINUATION_OFF, 27); }
    if Says(stmt, CONTINUATION_DISABLE) { SaysAt(stmt, CONTINUATION_DISABLE, 26); }
  }

  /** Two physical lines, the first with a continuation mark, the second at the end of the file. */
  function MarkedPair(a: string, b: string): string {
    a + " _" + "\n" + b
  }

  lemma MarkedPairIsJoined(a: string, b: string)
    requires IsText(a) && IsText(b) && |a| + |b| + 2 < CAP && b != "" && !Continues(a + b, '_')
    ensures ReadAll(MarkedPair(a, b), '_', false) == [a + b]
  {
    hide Setting, Continues, Join, ReadAll;
    PlainText(a);
    PlainText(b);
    MarkedLineContinues(a, '_');
    assert "" + (a + " _") == a + " _" == a + [' ', '_'];
    JoinTakesLine(a + " _", "\n", b, "", '_');
    assert (a + " _")[..|a + " _"| - 2] == a;
    assert b + "" + "" == b;
    JoinTakesLine(b, "", "", a, '_');
    ReadOne(MarkedPair(a, b), '_', "", a + b);
    ReadNone(Setting(a + b, '_'));
  }

  lemma MarkedPairIsTwoLines(a: string, b: string)
    requires IsText(a) && IsText(b) && |a| + 2 < CAP && |b| < CAP && b != "" && !Continues(b, '_')
    ensures ReadAll(MarkedPair(a, b), OFF, false) == [a + " _", b]
  {
    var marked := a + " _";
    var next := Setting(marked, OFF);
    assert next == OFF || next == '_';
    assert !Continues(marked, OFF) && !Continues(b, next);
    hide Setting, Continues, Join, ReadAll;
    PlainText(a);
    assert forall k :: 0 <= k < |marked| ==> !IsEol(marked[k]);
    assert "" + marked == marked;
    JoinTakesLine(marked, "\n", b, "", OFF);
    ReadOne(MarkedPair(a, b), OFF, b, marked);
    LastLine(b, next);
  }

  lemma LastLine(b: string, cont: char)
    requires IsText(b) && 0 < |b| < CAP && !Continues(b, cont)
    ensures ReadAll(b, cont, false) == [b]
  {
    hide Setting, Continues, Join, ReadAll;
    PlainText(b);
    assert b + "" + "" == b && "" + b == b;
    JoinTakesLine(b, "", "", "", cont);
    ReadOne(b, cont, "", b);
    ReadNone(Setting(b, cont));
  }

  lemma OptionLine(option: string, rest: string, cont: char)
    requires IsText(option) && 2 <= |option| < CAP && option[|option| - 2] != ' '
    ensures ReadAll(option + "\n" + rest, cont, false) == [option] + ReadAll(rest, Setting(option, cont), false)
  {
    assert "" + option == option;
    assert !Continues(option, cont);
    hide Setting, Continues, Join;
    PlainText(option);
    JoinTakesLine(option, "\n", rest, "", cont);
    ReadOne(option + "\n" + rest, cont, rest, option);
  }

  lemma SaysItself(key: string)
    ensures Says(key, key) && "" + "" + "" + key == key
  {
    assert key[..|key|] == key;
  }

  lemma OptionsAreText()
    ensures IsText(CONTINUATION_ON) && |CONTINUATION_ON| == 28 && CONTINUATION_ON[26] == 'O'
    ensures IsText(CONTINUATION_OFF) && |CONTINUATION_OFF| == 29 && CONTINUATION_OFF[27] == 'F'
  {
  }

  lemma SettingOfOption(cont: char)
    ensures Setting(CONTINUATION_ON, cont) == '_' && Setting(CONTINUATION_OFF, cont) == OFF
  {
    hide Setting, Says;
    OptionsAreText();
    SaysItself(CONTINUATION_ON);
    SaysItself(CONTINUATION_OFF);
    SettingFollowsOption("", "", "", CONTINUATION_ON, cont);
    SettingFollowsOption("", "", "", CONTINUATION_OFF, cont);
  }

  /** Behind an ON line a marked line is joined with the next one. */
  lemma OnLineJoins(a: string, b: string, cont: char)
    requires IsText(a) && IsText(b) && |a| + |b| + 2 < CAP && b != "" && !Continues(a + b, '_')
    ensures ReadAll(CONTINUATION_ON + "\n" + MarkedPair(a, b), cont, false) == [CONTINUATION_ON, a + b]
  {
    hide ReadAll, MarkedPair, Setting, IsText, Continues;
    SettingOfOption(cont);
    OptionsAreText();
    OptionLine(CONTINUATION_ON, MarkedPair(a, b), cont);
    MarkedPairIsJoined(a, b);
  }

  /** Behind an OFF line the same two physical lines are two lines. */
  lemma OffLineKeepsLinesApart(a: string, b: string, cont: char)
    requires IsText(a) && IsText(b) && |a| + 2 < CAP && |b| < CAP && b != "" && !Continues(b, '_')
    ensures ReadAll(CONTINUATION_OFF + "\n" + MarkedPair(a, b), cont, false) == [CONTINUATION_OFF, a + " _", b]
  {
    hide ReadAll, MarkedPair, Setting, IsText, Continues;
    SettingOfOption(cont);
    OptionsAreText();
    OptionLine(CONTINUATION_OFF, MarkedPair(a, b), cont);
    MarkedPairIsTwoLines(a, b);
  }

  lemma ReadOne(s: string, cont: char, rest: string, line: string)
    requires s != "" && Join(s, "", cont) == (rest, line)
    ensures ReadAll(s, cont, false) == [line] + ReadAll(rest, Setting(line, cont), false)
  {
    hide Join, Setting;
  }

  lemma ReadNone(cont: char)
    ensures ReadAll("", cont, false) == []
  {
  }

  // ---------- packing ----------

  type Tokens = seq<nat>

  /** The tokenised line in a buffer: everything before the first two zeros in a row. */
  function Body(tknbuf: Tokens): Tokens {
    if tknbuf == [] || (|tknbuf| >= 2 && tknbuf[0] == 0 && tknbuf[1] == 0) then []
    else [tknbuf[0]] + Body(tknbuf[1..])
  }

  /** A buffer the tokeniser leaves: it has two zeros in a row. */
  predicate Terminated(tknbuf: Tokens) {
    exists k :: 0 <= k < |tknbuf| - 1 && tknbuf[k] == 0 && tknbuf[k + 1] == 0
  }

  function Flat(bodies: seq<Tokens>): Tokens {
    if bodies == [] then [] else bodies[0] + [0] + Flat(bodies[1..])
  }

  function Pack(bodies: seq<Tokens>): Tokens {
    Flat(bodies) + [0, 0]
  }

  /** The bodies of the lines that are not empty. */
  function Bodies(lines: seq<string>, tok: string -> Tokens): seq<Tokens> {
    if lines == [] then []
    else (if lines[0] == "" then [] else [Body(tok(lines[0]))]) + Bodies(lines[1..], tok)
  }

  /** A line leaves one body, an empty line none. */
  lemma BodyOfLine(line: string, tok: string -> Tokens)
    ensures Bodies([line], tok) == if line == "" then [] else [Body(tok(line))]
  {
    assert [line][1..] == [];
    hide Body;
  }

  /** The bodies of lines come in the order of the lines. */
  lemma {:induction false} BodiesInOrder(lines: seq<string>, more: seq<string>, tok: string -> Tokens)
    ensures Bodies(lines + more, tok) == Bodies(lines, tok) + Bodies(more, tok)
    decreases |lines|
  {
    hide Body;
    if lines == [] {
      assert lines + more == more && [] + Bodies(more, tok) == Bodies(more, tok);
    } else {
      var first := if lines[0] == "" then [] else [Body(tok(lines[0]))];
      assert (lines + more)[1..] == lines[1..] + more;
      BodiesInOrder(lines[1..], more, tok);
      assert Bodies(lines, tok) == first + Bodies(lines[1..], tok);
      assert Bodies(lines + more, tok) == first + Bodies(lines[1..] + more, tok);
      hide Bodies;
      assert first + (Bodies(lines[1..], tok) + Bodies(more, tok)) == (first + Bodies(lines[1..], tok)) + Bodies(more, tok);
    }
  }

  predicate NoPair(s: Tokens) {
    forall k :: 0 <= k < |s| - 1 ==> !(s[k] == 0 && s[k + 1] == 0)
  }

  /** No zero pair inside, and no zero at the end. */
  predicate Clean(body: Tokens) {
    NoPair(body) && (body != [] ==> body[|body| - 1] != 0)
  }

  lemma {:induction false} BodyIsClean(tknbuf: Tokens)
    requires Terminated(tknbuf)
    ensures Clean(Body(tknbuf))
    ensures |Body(tknbuf)| + 2 <= |tknbuf| && tknbuf[..|Body(tknbuf)|] == Body(tknbuf)
    ensures tknbuf[|Body(tknbuf)|] == 0 && tknbuf[|Body(tknbuf)| + 1] == 0
    decreases |tknbuf|
  {
    if !(tknbuf[0] == 0 && tknbuf[1] == 0) {
      var t := tknbuf[1..];
      var k :| 0 <= k < |tknbuf| - 1 && tknbuf[k] == 0 && tknbuf[k + 1] == 0;
      assert t[k - 1] == 0 && t[k - 1 + 1] == 0;
      BodyIsClean(t);
      var b, c := Body(tknbuf), Body(t);
      assert b == [tknbuf[0]] + c;
      forall j | 0 <= j < |b| - 1
        ensures !(b[j] == 0 && b[j + 1] == 0)
      {
        if j > 0 {
          assert b[j] == c[j - 1] && b[j + 1] == c[j];
        } else {
          assert b[1] == c[0] == t[..|c|][0] == tknbuf[1];
        }
      }
      if c == [] {
        assert tknbuf[1] == t[0] == 0;
      }
    }
  }

  lemma NoPairAppend(a: Tokens, b: Tokens)
    requires a != [] && a[|a| - 1] == 0
    ensures NoPair(a + b) <==> NoPair(a) && NoPair(b) && (b != [] ==> b[0] != 0)
  {
    var s := a + b;
    if NoPair(s) {
      forall k | 0 <= k < |a| - 1
        ensures !(a[k] == 0 && a[k + 1] == 0)
      {
        assert s[k] == a[k] && s[k + 1] == a[k + 1];
      }
      forall k | 0 <= k < |b| - 1
        ensures !(b[k] == 0 && b[k + 1] == 0)
      {
        assert s[|a| + k] == b[k] && s[|a| + k + 1] == b[k + 1];
      }
      if b != [] {
        assert s[|a| - 1] == 0 && s[|a| - 1 + 1] == b[0];
      }
    }
    if NoPair(a) && NoPair(b) && (b != [] ==> b[0] != 0) {
      forall k | 0 <= k < |s| - 1
        ensures !(s[k] == 0 && s[k + 1] == 0)
      {
        if k >= |a| {
          assert s[k] == b[k - |a|] && s[k + 1] == b[k - |a| + 1];
        }
      }
    }
  }

  /** Every line after the first starts with a byte other than zero. */
  predicate Separated(bodies: seq<Tokens>) {
    forall i :: 1 <= i < |bodies| ==> bodies[i] != [] && bodies[i][0] != 0
  }

  lemma {:induction false} FlatHasNoPair(bodies: seq<Tokens>)
    requires forall i :: 0 <= i < |bodies| ==> Clean(bodies[i])
    ensures NoPair(Flat(bodies)) <==> Separated(bodies)
    decreases |bodies|
  {
    if bodies != [] {
      var a, rest := bodies[0] + [0], bodies[1..];
      FlatHasNoPair(rest);
      NoPairAppend(a, Flat(rest));
      forall k | 0 <= k < |a| - 1
        ensures !(a[k] == 0 && a[k + 1] == 0)
      {
        assert a[k] == bodies[0][k];
        assert k + 1 < |bodies[0]| ==> a[k + 1] == bodies[0][k + 1];
      }
      if rest != [] {
        assert Flat(rest)[0] == if rest[0] == [] then 0 else rest[0][0];
        assert rest[0] == bodies[1];
        assert Separated(bodies) <==> (bodies[1] != [] && bodies[1][0] != 0) && Separated(rest) by {
          assert forall i :: 2 <= i < |bodies| ==> bodies[i] == rest[i - 1];
          assert forall i :: 1 <= i < |rest| ==> rest[i] == bodies[i + 1];
        }
      }
    }
  }

  function TotalSize(bodies: seq<Tokens>): nat {
    if bodies == [] then 0 else |bodies[0]| + 1 + TotalSize(bodies[1..])
  }

  lemma {:induction false} FlatSize(bodies: seq<Tokens>)
    ensures |Flat(bodies)| == TotalSize(bodies)
    ensures bodies != [] ==> Flat(bodies) != [] && Flat(bodies)[|Flat(bodies)| - 1] == 0
    decreases |bodies|
  {
    if bodies != [] {
      FlatSize(bodies[1..]);
    }
  }

  /**
   The packed program has the size of its lines plus two, and its first two zeros in a row are
   the ones behind the last line if and only if every later line starts with a nonzero byte.
   */
  lemma PackedProgramEnd(bodies: seq<Tokens>)
    requires bodies != [] && forall i :: 0 <= i < |bodies| ==> Clean(bodies[i])
    ensures var pm, end := Pack(bodies), TotalSize(bodies) - 1;
            && |pm| == TotalSize(bodies) + 2
            && pm[end] == 0 && pm[end + 1] == 0
            && ((forall k :: 0 <= k < end ==> !(pm[k] == 0 && pm[k + 1] == 0)) <==> Separated(bodies))
  {
    FlatSize(bodies);
    FlatHasNoPair(bodies);
    var pm, f := Pack(bodies), Flat(bodies);
    assert forall k :: 0 <= k < |f| ==> pm[k] == f[k];
  }
}
