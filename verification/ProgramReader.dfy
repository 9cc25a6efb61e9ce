/** The source reader at work: positions advance through the text, program memory is appended to. */
module ProgramReader {
  import opened Wrappers
  import opened ProgramSource

  lemma Behind(s: string, p: nat, k: nat)
    requires p + k <= |s|
    ensures s[p..][k..] == s[p + k..]
  {
  }

  method FindLineEnd(source: string, start: nat) returns (p: nat)
    requires start <= |source|
    ensures p == start + LineLength(source[start..]) && p <= |source|
  {
    p := start;
    while p < |source| && source[p] != '\r' && source[p] != '\n'
      invariant start <= p <= |source|
      invariant start + LineLength(source[start..]) == p + LineLength(source[p..])
    {
      Behind(source, p, 1);
      p := p + 1;
    }
  }

  method SkipLineEnd(source: string, start: nat) returns (p: nat)
    requires start <= |source|
    ensures start <= p <= |source| && source[p..] == SkipEnd(source[start..])
  {
    p := start;
    if p < |source| && source[p] == '\r' {
      Behind(source, start, 1);
      p := p + 1;
    }
    if p < |source| && source[p] == '\n' {
      Behind(source, p, 1);
      p := p + 1;
    }
  }

  method SkipBlanksFrom(line: string, start: nat) returns (p: nat)
    requires start <= |line|
    ensures start <= p <= |line| && line[p..] == SkipBlanks(line[start..])
  {
    p := start;
    while p < |line| && (line[p] == ' ' || line[p] == '\t')
      invariant start <= p <= |line|
      invariant SkipBlanks(line[start..]) == SkipBlanks(line[p..])
    {
      Behind(line, p, 1);
      p := p + 1;
    }
  }

  method UpdateContinuationSetting(line: string, continuation: char) returns (c: char)
    ensures c == Setting(line, continuation)
  {
    hide SkipBlanks, SkipDigits;
    assert line[0..] == line;
    var p := SkipBlanksFrom(line, 0);
    if p < |line| && '0' <= line[p] <= '9' {
      p := SkipDigitsFrom(line, p);
      p := SkipBlanksFrom(line, p);
    }
    c := continuation;
    if StartsWithCi(line[p..], "OPTION CONTINUATION LINES ON") || StartsWithCi(line[p..], "OPTION CONTINUATION LINES ENABLE") {
      c := '_';
    } else if StartsWithCi(line[p..], "OPTION CONTINUATION LINES OFF") || StartsWithCi(line[p..], "OPTION CONTINUATION LINES DISABLE") {
      c := OFF;
    }
  }

  method SkipDigitsFrom(line: string, start: nat) returns (p: nat)
    requires start <= |line|
    ensures start <= p <= |line| && line[p..] == SkipDigits(line[start..])
  {
    p := start;
    while p < |line| && '0' <= line[p] <= '9'
      invariant start <= p <= |line|
      invariant SkipDigits(line[start..]) == SkipDigits(line[p..])
    {
      Behind(line, p, 1);
      p := p + 1;
    }
  }

  /** Appends as much of the line at p as fits, and steps past its end. */
  method TakeLine(source: string, start: nat, prefix: string) returns (p: nat, out: string)
    requires start < |source| && |prefix| < CAP
    ensures start < p <= |source|
    ensures var s := source[start..];
            var n := LineLength(s);
            out == prefix + Fitting(prefix, s[..n]) && source[p..] == SkipEnd(s[n..]) && |out| < CAP
  {
    hide SkipEnd;
    var eol := FindLineEnd(source, start);
    Behind(source, start, eol - start);
    assert source[start..][..eol - start] == source[start..eol];
    var len := eol - start;
    if |prefix| + len > CAP - 1 {
      len := CAP - 1 - |prefix|;
    }
    assert source[start..eol][..len] == source[start..start + len];
    out := prefix + source[start..start + len];
    p := SkipLineEnd(source, eol);
    SkipEndAdvances(source[eol..]);
  }

  lemma SkipEndAdvances(s: string)
    ensures s != [] && IsEol(s[0]) ==> |SkipEnd(s)| < |s|
  {
  }

  lemma JoinUnfolds(s: string, out: string, cont: char, joined: string, rest: string)
    requires |out| < CAP && s != []
    requires joined == out + Fitting(out, s[..LineLength(s)]) && rest == SkipEnd(s[LineLength(s)..])
    ensures Join(s, out, cont) == if Continues(joined, cont) then Join(rest, joined[..|joined| - 2], cont) else (rest, joined)
  {
    hide LineLength, SkipEnd, Fitting;
  }

  method ReadLogicalLine(source: string, start: nat, continuation: char) returns (p: nat, out: string, cont: char)
    requires start < |source|
    ensures start < p <= |source|
    ensures (source[p..], out) == Join(source[start..], "", continuation)
    ensures cont == Setting(out, continuation)
  {
    hide LineLength, SkipEnd, Setting, Join, Fitting;
    p, out := start, "";
    ghost var result := Join(source[start..], "", continuation);
    while p < |source|
      invariant start <= p <= |source| && |out| < CAP
      invariant p == start ==> out == ""
      invariant result == Join(source[p..], out, continuation)
      decreases |source| - p
    {
      ghost var s, prefix := source[p..], out;
      p, out := TakeLine(source, p, out);
      JoinUnfolds(s, prefix, continuation, out, source[p..]);
      if continuation != OFF && |out| >= 2 && out[|out| - 2] == ' ' && out[|out| - 1] == continuation {
        out := out[..|out| - 2];
        continue;
      }
      break;
    }
    if p == |source| {
      assert source[p..] == "";
      JoinNothing(out, continuation);
    }
    cont := UpdateContinuationSetting(out, continuation);
  }

  method ReadBatchLine(source: string, start: nat) returns (p: nat, out: string)
    requires start < |source|
    ensures start < p <= |source|
    ensures (source[p..], out) == Join(source[start..], "", OFF)
  {
    hide LineLength, SkipEnd, Join, Fitting;
    p, out := TakeLine(source, start, "");
    JoinUnfolds(source[start..], "", OFF, out, source[p..]);
  }

  /** Copies the tokenised line up to its double zero, and one zero after it. */
  method AppendTokenisedLine(pm: Tokens, tknbuf: Tokens) returns (r: Tokens)
    requires Terminated(tknbuf)
    ensures r == pm + Body(tknbuf) + [0]
  {
    BodyIsClean(tknbuf);
    ghost var n := |Body(tknbuf)|;
    r := pm;
    var tp := 0;
    assert tknbuf[0..] == tknbuf && tknbuf[..0] == [];
    while !(tknbuf[tp] == 0 && tknbuf[tp + 1] == 0)
      invariant tp <= n && n + 2 <= |tknbuf|
      invariant r == pm + tknbuf[..tp]
      invariant n == tp + |Body(tknbuf[tp..])|
      decreases n - tp
    {
      Behind2(tknbuf, tp);
      r := r + [tknbuf[tp]];
      tp := tp + 1;
    }
    r := r + [0];
  }

  lemma Behind2(s: Tokens, p: nat)
    requires p < |s|
    ensures s[p..][1..] == s[p + 1..] && s[..p + 1] == s[..p] + [s[p]]
  {
  }

  /**
   mmbasic_tokenise_source_to_progmem: every logical line that is not empty is tokenised by
   `tok` and appended, then two zeros end the program. PSize is the length of the result.
   */
  method TokeniseSource(source: string, joinLines: bool, optionCont: char, tok: string -> Tokens)
    returns (pm: Tokens, overrun: bool)
    requires forall line :: Terminated(tok(line))
    ensures var cont := if !joinLines then OFF else if optionCont != OFF then optionCont else '_';
            var lines := ReadAll(source, cont, !joinLines);
            pm == Pack(Bodies(lines, tok)) && (overrun <==> AnyOverruns(lines))
  {
    hide AnyOverruns, Setting, Body, ReadAll, Flat, Bodies, Terminated;
    var cont := if !joinLines then OFF else if optionCont != OFF then optionCont else '_';
    var p := 0;
    pm, overrun := [], false;
    ghost var all := ReadAll(source, cont, !joinLines);
    ghost var whole := Bodies(all, tok);
    assert source[0..] == source && pm + Flat(whole) == Flat(whole);
    while p < |source|
      invariant p <= |source|
      invariant Flat(whole) == pm + Flat(Bodies(ReadAll(source[p..], cont, !joinLines), tok))
      invariant AnyOverruns(all) <==> overrun || AnyOverruns(ReadAll(source[p..], cont, !joinLines))
      decreases |source| - p
    {
      ReadAllUnfolds(source[p..], cont, !joinLines);
      var logical;
      if joinLines {
        p, logical, cont := ReadLogicalLine(source, p, cont);
      } else {
        p, logical := ReadBatchLine(source, p);
      }
      ghost var left := ReadAll(source[p..], cont, !joinLines);
      BodiesOfCons(logical, left, tok);
      OverrunsOfCons(logical, left);
      overrun := overrun || |logical| >= STRINGSIZE;
      ghost var before, piece := pm, if logical == "" then [] else Body(tok(logical)) + [0];
      if |logical| > 0 {
        pm := AppendTokenisedLine(pm, tok(logical));
      }
      Regroup(before, piece, Flat(Bodies(left, tok)), pm);
    }
    NothingIsLeft(cont, !joinLines, tok);
    assert source[p..] == "" && pm + [] == pm;
    assert Flat(whole) == pm;
    pm := pm + [0];
    pm := pm + [0];
  }

  lemma Regroup(before: Tokens, piece: Tokens, rest: Tokens, pm: Tokens)
    requires pm == before + piece || (exists body :: piece == body + [0] && pm == before + body + [0])
    ensures pm + rest == before + (piece + rest)
  {
  }

  lemma ReadAllUnfolds(s: string, cont: char, batch: bool)
    requires s != []
    ensures var (rest, line) := Join(s, "", if batch then OFF else cont);
            ReadAll(s, cont, batch) == [line] + ReadAll(rest, if batch then cont else Setting(line, cont), batch)
  {
  }

  lemma NothingIsLeft(cont: char, batch: bool, tok: string -> Tokens)
    ensures Flat(Bodies(ReadAll("", cont, batch), tok)) == [] && !AnyOverruns(ReadAll("", cont, batch))
  {
  }

  lemma OverrunsOfCons(line: string, rest: seq<string>)
    ensures AnyOverruns([line] + rest) <==> Overruns(line) || AnyOverruns(rest)
  {
    assert line in [line] + rest && forall l :: l in rest ==> l in [line] + rest;
  }

  lemma BodiesOfCons(line: string, rest: seq<string>, tok: string -> Tokens)
    ensures Flat(Bodies([line] + rest, tok))
         == (if line == "" then [] else Body(tok(line)) + [0]) + Flat(Bodies(rest, tok))
  {
    assert ([line] + rest)[1..] == rest;
    var b := Bodies(rest, tok);
    if line != "" {
      assert ([Body(tok(line))] + b)[1..] == b;
    } else {
      assert [] + b == b;
    }
  }
}
