/** The two readers of the CMDS stream at work: the pixel tracer's loops and the canvas replay. */
module CmdsPlayers {
  import opened Bytes
  import opened Wrappers
  import opened CmdsStream

  datatype FrameError = ShortFrame

  function U32(pl: seq<byte>, p: nat): nat
    requires p + 4 <= |pl|
  {
    pl[p] as int + 256 * (pl[p + 1] as int + 256 * (pl[p + 2] as int + 256 * (pl[p + 3] as int)))
  }

  /** Bits 23..16, 15..8 and 7..0 of a colour word. */
  function Channels(rgb: nat): Rgb {
    Rgb(rgb / 0x1_0000 % 256, rgb / 0x100 % 256, rgb % 256)
  }

  lemma ChannelsOfWord(pl: seq<byte>, p: nat)
    requires p + 4 <= |pl|
    ensures Channels(U32(pl, p)) == Colour(pl, p)
  {
    var n, b0, b1, b2, b3 := U32(pl, p), pl[p] as int, pl[p + 1] as int, pl[p + 2] as int, pl[p + 3] as int;
    assert n / 0x100 == b1 + 256 * (b2 + 256 * b3);
    assert n / 0x1_0000 == b2 + 256 * b3;
  }

  predicate IsCmds(pl: seq<byte>)
    requires |pl| >= 8
  {
    pl[0] == 'C' as int && pl[1] == 'M' as int && pl[2] == 'D' as int && pl[3] == 'S' as int
  }

  lemma MagicIsCmds(pl: seq<byte>)
    requires |pl| >= 8
    ensures IsCmds(pl) <==> pl[..4] == RECT_MESSAGE[..4] == [67, 77, 68, 83]
  {
  }

  /** The runs of an op 0x06. */
  method ReadRuns(pl: seq<byte>, start: nat, total: nat, wanted: Option<nat>, before: Option<Rgb>)
    returns (p: nat, seen: nat, pixel: Option<Rgb>)
    requires start <= |pl|
    ensures (p, seen, pixel) == TraceRuns(pl, start, 0, total, wanted, before)
  {
    hide Rgb332;
    p, seen, pixel := start, 0, before;
    while seen < total && p + 3 <= |pl|
      invariant start <= p <= |pl|
      invariant TraceRuns(pl, start, 0, total, wanted, before) == TraceRuns(pl, p, seen, total, wanted, pixel)
      decreases |pl| - p
    {
      var run := U16(pl, p);
      var c := pl[p + 2];
      if wanted.Some? && seen <= wanted.value < seen + run {
        pixel := Some(Rgb332(c));
      }
      p := p + 3;
      seen := seen + run;
    }
  }

  /** One operation of the traced stream; false when the tracer ends with it. */
  method TraceOne(pl: seq<byte>, start: nat, t: Point, before: Option<Rgb>)
    returns (more: bool, p: nat, pixel: Option<Rgb>)
    requires start < |pl|
    ensures more ==> start < p <= |pl| && Trace(pl, start, t, before) == Trace(pl, p, t, pixel)
    ensures !more ==> Trace(pl, start, t, before) == pixel
  {
    hide Trace, TraceRuns, Channels, U32, Colour, I16, U16, Index;
    var op, end := pl[start], |pl|;
    p, pixel := start + 1, before;
    if op == 6 {
      more, p, pixel := TraceRle(pl, start, t, before);
      return;
    }
    ghost var next := NextOp(pl, start);
    if next.Some? {
      TraceGoesOn(pl, start, t, before, next.value.0, next.value.1);
    } else {
      TraceEnds(pl, start, t, before);
    }
    if op == 1 {
      if p + 4 > end { return false, p, pixel; }
      ChannelsOfWord(pl, p);
      pixel := Some(Channels(U32(pl, p)));
      p := p + 4;
    } else if op == 2 {
      if p + 12 > end { return false, p, pixel; }
      ChannelsOfWord(pl, p + 8);
      if Inside(t, I16(pl, p), I16(pl, p + 2), U16(pl, p + 4), U16(pl, p + 6)) {
        pixel := Some(Channels(U32(pl, p + 8)));
      }
      p := p + 12;
    } else if op == 3 {
      if p + 8 > end { return false, p, pixel; }
      ChannelsOfWord(pl, p + 4);
      if I16(pl, p) == t.0 && I16(pl, p + 2) == t.1 {
        pixel := Some(Channels(U32(pl, p + 4)));
      }
      p := p + 8;
    } else if op == 4 {
      if p + 6 > end { return false, p, pixel; }
      p := p + 6;
      pixel := None;
    } else if op == 5 {
      if p + 8 > end { return false, p, pixel; }
      var x, y, bw, bh := I16(pl, p), I16(pl, p + 2), U16(pl, p + 4), U16(pl, p + 6);
      p := p + 8;
      var n := ImageBytes(bw, bh);
      if p + n > end { return false, p, pixel; }
      if Inside(t, x, y, bw, bh) {
        var k := Index(t, x, y, bw, bh) * 4;
        PixelOfSlice(pl, p, n, k);
        pixel := Some(Rgb(pl[p + k], pl[p + k + 1], pl[p + k + 2]));
      }
      p := p + n;
    } else {
      return false, p, pixel;
    }
    more := true;
  }

  lemma PixelOfSlice(pl: seq<byte>, p: nat, n: nat, k: nat)
    requires p + n <= |pl| && k + 2 < n
    ensures pl[p..p + n][k] == pl[p + k] && pl[p..p + n][k + 1] == pl[p + k + 1] && pl[p..p + n][k + 2] == pl[p + k + 2]
  {
  }

  /** An op 0x06 of the traced stream. */
  method TraceRle(pl: seq<byte>, start: nat, t: Point, before: Option<Rgb>)
    returns (more: bool, p: nat, pixel: Option<Rgb>)
    requires start < |pl| && pl[start] == 6
    ensures more ==> start < p <= |pl| && Trace(pl, start, t, before) == Trace(pl, p, t, pixel)
    ensures !more ==> Trace(pl, start, t, before) == pixel
  {
    hide Trace, TraceRuns, I16, U16;
    p, pixel := start + 1, before;
    if p + 8 > |pl| {
      TraceEnds(pl, start, t, before);
      return false, p, pixel;
    }
    var x, y, bw, bh := I16(pl, p), I16(pl, p + 2), U16(pl, p + 4), U16(pl, p + 6);
    TraceOfRle(pl, start, t, before, Rle(x, y, bw, bh), p + 8);
    var wanted := if Inside(t, x, y, bw, bh) then Some(Index(t, x, y, bw, bh)) else None;
    var seen;
    p, seen, pixel := ReadRuns(pl, p + 8, bw * bh, wanted, pixel);
    more := seen == bw * bh;
  }

  /** cmds_pixel_rgb_at: an error for a short frame, nothing for another magic or a pixel off the display. */
  method CmdsPixelRgbAt(pl: seq<byte>, tx: int, ty: int) returns (r: Result<Option<Rgb>, FrameError>)
    ensures r == if |pl| < 8 then Err(ShortFrame)
                 else if !IsCmds(pl) || !Inside((tx, ty), 0, 0, U16(pl, 4), U16(pl, 6)) then Ok(None)
                 else Ok(Trace(pl, 8, (tx, ty), None))
  {
    hide Trace;
    if |pl| < 8 { return Err(ShortFrame); }
    var w, h := U16(pl, 4), U16(pl, 6);
    if !IsCmds(pl) || tx < 0 || ty < 0 || tx >= w || ty >= h { return Ok(None); }
    var p, pixel, more := 8, None, true;
    while p < |pl|
      invariant 8 <= p <= |pl|
      invariant Trace(pl, 8, (tx, ty), None) == Trace(pl, p, (tx, ty), pixel)
      decreases |pl| - p
    {
      more, p, pixel := TraceOne(pl, p, (tx, ty), pixel);
      if !more { return Ok(pixel); }
    }
    TraceAtEnd(pl, p, (tx, ty), pixel);
    r := Ok(pixel);
  }

  lemma TraceAtEnd(pl: seq<byte>, p: nat, t: Point, pixel: Option<Rgb>)
    requires p >= |pl|
    ensures Trace(pl, p, t, pixel) == pixel
  {
  }

  class Display {
    var width: nat
    var height: nat
    var pixels: Canvas

    constructor ()
      ensures HasSize(pixels, width, height) && pixels == map[]
    {
      width, height, pixels := 0, 0, map[];
    }

    /** A canvas of another size starts out blank. */
    method EnsureCanvas(w: nat, h: nat)
      requires HasSize(pixels, width, height)
      modifies this
      ensures width == w && height == h && HasSize(pixels, w, h)
      ensures pixels == if w == old(width) && h == old(height) then old(pixels) else BlankCanvas(w, h)
    {
      if w != width || h != height {
        pixels := map x, y | 0 <= x < w && 0 <= y < h :: (x, y) := Rgb(0, 0, 0);
        width, height := w, h;
      }
    }

    method FillRect(x: int, y: int, w: int, h: int, colour: Rgb)
      modifies `pixels
      ensures pixels == Fill(old(pixels), x, y, w, h, colour)
    {
      pixels := map t | t in pixels :: if x <= t.0 < x + w && y <= t.1 < y + h then colour else pixels[t];
    }

    /** drawImage of the canvas onto itself, displaced by n rows. */
    method MoveRows(n: int)
      modifies `pixels
      ensures pixels == Shift(old(pixels), n)
    {
      pixels := map t | t in pixels :: if (t.0, t.1 + n) in pixels then pixels[(t.0, t.1 + n)] else pixels[t];
    }

    /** putImageData. */
    method PutImageData(x: int, y: int, w: nat, h: nat, data: seq<byte>)
      requires |data| == ImageBytes(w, h)
      modifies `pixels
      ensures pixels == PutImage(old(pixels), Blit(x, y, w, h, data))
    {
      pixels := PutImage(pixels, Blit(x, y, w, h, data));
    }

    method ScrollBy(lines: int, bg: Rgb)
      modifies `pixels
      ensures pixels == Paint(old(pixels), width, height, Scroll(lines, bg))
    {
      hide Fill, Shift;
      if lines > 0 {
        MoveRows(lines);
        FillRect(0, height - lines, width, lines, bg);
      } else if lines < 0 {
        MoveRows(lines);
        FillRect(0, 0, width, -lines, bg);
      }
    }

    /** One operation of the stream; false when the replay ends with it. */
    method ReplayOne(pl: seq<byte>, start: nat) returns (more: bool, p: nat)
      requires start < |pl|
      modifies `pixels
      ensures more ==> start < p <= |pl|
      ensures more ==> Replay(pl, start, width, height, old(pixels)) == Replay(pl, p, width, height, pixels)
      ensures !more ==> Replay(pl, start, width, height, old(pixels)) == pixels
    {
      hide Fill, Shift, PutImage, Channels, U32, Colour, I16;
      var op, end := pl[start], |pl|;
      p := start + 1;
      if op == 1 {
        if p + 4 > end { return false, p; }
        ChannelsOfWord(pl, p);
        FillRect(0, 0, width, height, Channels(U32(pl, p)));
        p := p + 4;
      } else if op == 2 {
        if p + 12 > end { return false, p; }
        ChannelsOfWord(pl, p + 8);
        FillRect(I16(pl, p), I16(pl, p + 2), U16(pl, p + 4), U16(pl, p + 6), Channels(U32(pl, p + 8)));
        p := p + 12;
      } else if op == 3 {
        if p + 8 > end { return false, p; }
        ChannelsOfWord(pl, p + 4);
        FillRect(I16(pl, p), I16(pl, p + 2), 1, 1, Channels(U32(pl, p + 4)));
        p := p + 8;
      } else if op == 4 {
        if p + 6 > end { return false, p; }
        ChannelsOfWord(pl, p + 2);
        ScrollBy(I16(pl, p), Channels(U32(pl, p + 2)));
        p := p + 6;
      } else if op == 5 {
        if p + 8 > end { return false, p; }
        var x, y, bw, bh := I16(pl, p), I16(pl, p + 2), U16(pl, p + 4), U16(pl, p + 6);
        p := p + 8;
        var nbytes := ImageBytes(bw, bh);
        if p + nbytes > end || nbytes == 0 { return false, p; }
        PutImageData(x, y, bw, bh, pl[p..p + nbytes]);
        p := p + nbytes;
      } else {
        return false, p;
      }
      more := true;
    }

    /** replayCmds. */
    method ReplayCmds(pl: seq<byte>)
      requires |pl| >= 8 && HasSize(pixels, width, height)
      modifies this
      ensures width == U16(pl, 4) && height == U16(pl, 6) && HasSize(pixels, width, height)
      ensures var kept := width == old(width) && height == old(height);
              pixels == Replay(pl, 8, width, height, if kept then old(pixels) else BlankCanvas(width, height))
    {
      hide Replay;
      EnsureCanvas(U16(pl, 4), U16(pl, 6));
      ghost var c := pixels;
      var p, more := 8, true;
      while p < |pl|
        invariant 8 <= p <= |pl|
        invariant width == U16(pl, 4) && height == U16(pl, 6)
        invariant Replay(pl, 8, width, height, c) == Replay(pl, p, width, height, pixels)
        decreases |pl| - p
      {
        more, p := ReplayOne(pl, p);
        if !more { return; }
      }
      ReplayAtEnd(pl, p, width, height, pixels);
    }
  }

  lemma ReplayAtEnd(pl: seq<byte>, p: nat, w: nat, h: nat, c: Canvas)
    requires p >= |pl|
    ensures Replay(pl, p, w, h, c) == c
  {
  }
}
