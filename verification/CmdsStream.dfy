/**
 The CMDS display stream: the browser's replay of a whole message onto its canvas (web/app.js)
 and the smoke test's tracer of one pixel (porttools/esp32_web_console_smoke.py), both as
 functions of the bytes, and the agreement of the two.
 */
module CmdsStream {
  import opened Bytes
  import opened Wrappers

  datatype Rgb = Rgb(r: byte, g: byte, b: byte)

  type Point = (int, int)

  /** A canvas maps every pixel it has to its colour. */
  type Canvas = map<Point, Rgb>

  // ---------- the wire format ----------

  datatype Op =
    | Cls(colour: Rgb)
    | Rect(x: int, y: int, w: nat, h: nat, colour: Rgb)
    | Dot(x: int, y: int, colour: Rgb)
    | Scroll(lines: int, bg: Rgb)
    | Blit(x: int, y: int, w: nat, h: nat, data: seq<byte>)
    | Rle(x: int, y: int, w: nat, h: nat)

  function U16(pl: seq<byte>, p: nat): nat
    requires p + 2 <= |pl|
  {
    pl[p] as int + 256 * (pl[p + 1] as int)
  }

  function I16(pl: seq<byte>, p: nat): int
    requires p + 2 <= |pl|
  {
    if U16(pl, p) >= 0x8000 then U16(pl, p) - 0x1_0000 else U16(pl, p)
  }

  /** A little-endian 0x00RRGGBB word. */
  function Colour(pl: seq<byte>, p: nat): Rgb
    requires p + 4 <= |pl|
  {
    Rgb(pl[p + 2], pl[p + 1], pl[p])
  }

  function ImageBytes(w: nat, h: nat): nat {
    w * h * 4
  }

  /** The operation at p and the position behind it, or nothing if it is cut off or unknown. */
  function NextOp(pl: seq<byte>, p: nat): (r: Option<(Op, nat)>)
    ensures r.Some? ==> p < r.value.1 <= |pl|
    ensures r.Some? && r.value.0.Blit? ==> |r.value.0.data| == ImageBytes(r.value.0.w, r.value.0.h)
  {
    if p >= |pl| then None else
    var op, q := pl[p], p + 1;
    if op == 1 then
      if q + 4 > |pl| then None else Some((Cls(Colour(pl, q)), q + 4))
    else if op == 2 then
      if q + 12 > |pl| then None
      else Some((Rect(I16(pl, q), I16(pl, q + 2), U16(pl, q + 4), U16(pl, q + 6), Colour(pl, q + 8)), q + 12))
    else if op == 3 then
      if q + 8 > |pl| then None else Some((Dot(I16(pl, q), I16(pl, q + 2), Colour(pl, q + 4)), q + 8))
    else if op == 4 then
      if q + 6 > |pl| then None else Some((Scroll(I16(pl, q), Colour(pl, q + 2)), q + 6))
    else if op == 5 then
      if q + 8 > |pl| then None else
      var w, h := U16(pl, q + 4), U16(pl, q + 6);
      var n := ImageBytes(w, h);
      if q + 8 + n > |pl| then None
      else Some((Blit(I16(pl, q), I16(pl, q + 2), w, h, pl[q + 8..q + 8 + n]), q + 8 + n))
    else if op == 6 then
      if q + 8 > |pl| then None
      else Some((Rle(I16(pl, q), I16(pl, q + 2), U16(pl, q + 4), U16(pl, q + 6)), q + 8))
    else None
  }

  predicate Inside(t: Point, x: int, y: int, w: nat, h: nat) {
    x <= t.0 < x + w && y <= t.1 < y + h
  }

  /** Row-major index of t in a rectangle at (x, y). */
  function Index(t: Point, x: int, y: int, w: nat, h: nat): (k: nat)
    requires Inside(t, x, y, w, h)
    ensures k < w * h
  {
    IndexIsSmall(t.0 - x, t.1 - y, w, h);
    (t.1 - y) * w + (t.0 - x)
  }

  lemma IndexIsSmall(dx: int, dy: int, w: nat, h: nat)
    requires 0 <= dx < w && 0 <= dy < h
    ensures 0 <= dy * w + dx < w * h
  {
    assert dy * w + w == (dy + 1) * w;
    assert (dy + 1) * w <= h * w;
  }

  function BlitPixel(t: Point, op: Op): Rgb
    requires op.Blit? && Inside(t, op.x, op.y, op.w, op.h) && |op.data| == ImageBytes(op.w, op.h)
  {
    var k := Index(t, op.x, op.y, op.w, op.h) * 4;
    Rgb(op.data[k], op.data[k + 1], op.data[k + 2])
  }

  // ---------- writing operations ----------

  /** Sixteen bits, low byte first, negative numbers in two's complement. */
  function Write16(n: int): (s: seq<byte>)
    requires -0x8000 <= n < 0x1_0000
    ensures |s| == 2
  {
    var u := if n < 0 then n + 0x1_0000 else n;
    [u % 256, u / 256]
  }

  /** The word 0xppRRGGBB, low byte first. */
  function WriteColour(c: Rgb, pad: byte): (s: seq<byte>)
    ensures |s| == 4
  {
    [c.b, c.g, c.r, pad]
  }

  predicate Signed(n: int) {
    -0x8000 <= n < 0x8000
  }

  predicate Unsigned(n: int) {
    0 <= n < 0x1_0000
  }

  predicate Writable(op: Op) {
    match op
    case Cls(_) => true
    case Rect(x, y, w, h, _) => Signed(x) && Signed(y) && Unsigned(w) && Unsigned(h)
    case Dot(x, y, _) => Signed(x) && Signed(y)
    case Scroll(lines, _) => Signed(lines)
    case Blit(x, y, w, h, data) => Signed(x) && Signed(y) && Unsigned(w) && Unsigned(h) && |data| == ImageBytes(w, h)
    case Rle(x, y, w, h) => Signed(x) && Signed(y) && Unsigned(w) && Unsigned(h)
  }

  /** The bytes of an operation; of a run-length image those before its runs. */
  function WriteOp(op: Op, pad: byte): (s: seq<byte>)
    requires Writable(op)
    ensures |s| >= 5
  {
    match op
    case Cls(colour) => [1] + WriteColour(colour, pad)
    case Rect(x, y, w, h, colour) => [2] + Write16(x) + Write16(y) + Write16(w) + Write16(h) + WriteColour(colour, pad)
    case Dot(x, y, colour) => [3] + Write16(x) + Write16(y) + WriteColour(colour, pad)
    case Scroll(lines, bg) => [4] + Write16(lines) + WriteColour(bg, pad)
    case Blit(x, y, w, h, data) => [5] + Write16(x) + Write16(y) + Write16(w) + Write16(h) + data
    case Rle(x, y, w, h) => [6] + Write16(x) + Write16(y) + Write16(w) + Write16(h)
  }

  lemma Reads16(pl: seq<byte>, p: nat, n: int)
    requires -0x8000 <= n < 0x1_0000 && p + 2 <= |pl| && pl[p] == Write16(n)[0] && pl[p + 1] == Write16(n)[1]
    ensures n >= 0 ==> U16(pl, p) == n
    ensures n < 0x8000 ==> I16(pl, p) == n
  {
    var u := if n < 0 then n + 0x1_0000 else n;
    assert u % 256 + 256 * (u / 256) == u;
  }

  /** The bytes of s are those of pl from p on. */
  predicate At(pl: seq<byte>, p: nat, s: seq<byte>) {
    p + |s| <= |pl| && forall k :: 0 <= k < |s| ==> pl[p + k] == s[k]
  }

  lemma NextOpAt(pl: seq<byte>, p: nat, op: Op, pad: byte)
    requires Writable(op) && At(pl, p, WriteOp(op, pad))
    ensures NextOp(pl, p) == Some((op, p + |WriteOp(op, pad)|))
  {
    hide U16, I16, Write16;
    var s := WriteOp(op, pad);
    assert pl[p + 0] == s[0];
    match op
    case Cls(colour) =>
      assert pl[p + 1] == s[1] && pl[p + 2] == s[2] && pl[p + 3] == s[3];
    case Rect(x, y, w, h, colour) =>
      FourNumbersAt(pl, p, s, x, y, w, h);
      assert pl[p + 9] == s[9] && pl[p + 10] == s[10] && pl[p + 11] == s[11];
    case Dot(x, y, colour) =>
      assert pl[p + 1] == s[1] && pl[p + 2] == s[2] && pl[p + 3] == s[3] && pl[p + 4] == s[4];
      Reads16(pl, p + 1, x);
      Reads16(pl, p + 3, y);
      assert pl[p + 5] == s[5] && pl[p + 6] == s[6] && pl[p + 7] == s[7];
    case Scroll(lines, bg) =>
      assert pl[p + 1] == s[1] && pl[p + 2] == s[2];
      Reads16(pl, p + 1, lines);
      assert pl[p + 3] == s[3] && pl[p + 4] == s[4] && pl[p + 5] == s[5];
    case Blit(x, y, w, h, data) =>
      FourNumbersAt(pl, p, s, x, y, w, h);
      var n := ImageBytes(w, h);
      assert |s| == 9 + n;
      forall k | 0 <= k < n
        ensures pl[p + 9..p + 9 + n][k] == data[k]
      {
        assert pl[p + (9 + k)] == s[9 + k];
      }
      assert pl[p + 9..p + 9 + n] == data;
    case Rle(x, y, w, h) =>
      FourNumbersAt(pl, p, s, x, y, w, h);
  }

  lemma FourNumbersAt(pl: seq<byte>, p: nat, s: seq<byte>, x: int, y: int, w: nat, h: nat)
    requires Signed(x) && Signed(y) && Unsigned(w) && Unsigned(h)
    requires At(pl, p, s) && |s| >= 9 && s[1..9] == Write16(x) + Write16(y) + Write16(w) + Write16(h)
    ensures I16(pl, p + 1) == x && I16(pl, p + 3) == y && U16(pl, p + 5) == w && U16(pl, p + 7) == h
  {
    hide U16, I16, Write16;
    assert pl[p + 1] == s[1..9][0] && pl[p + 2] == s[1..9][1] && pl[p + 3] == s[1..9][2] && pl[p + 4] == s[1..9][3];
    assert pl[p + 5] == s[1..9][4] && pl[p + 6] == s[1..9][5] && pl[p + 7] == s[1..9][6] && pl[p + 8] == s[1..9][7];
    Reads16(pl, p + 1, x);
    Reads16(pl, p + 3, y);
    Reads16(pl, p + 5, w);
    Reads16(pl, p + 7, h);
  }

  /** Every operation is read back from its bytes, wherever they stand and whatever follows. */
  lemma NextOpReadsBack(head: seq<byte>, op: Op, pad: byte, tail: seq<byte>)
    requires Writable(op)
    ensures NextOp(head + WriteOp(op, pad) + tail, |head|) == Some((op, |head| + |WriteOp(op, pad)|))
  {
    hide WriteOp;
    NextOpAt(head + WriteOp(op, pad) + tail, |head|, op, pad);
  }

  /** An operation that is cut off anywhere is none. */
  lemma CutOpIsNone(head: seq<byte>, op: Op, pad: byte, k: nat)
    requires Writable(op) && k < |WriteOp(op, pad)|
    ensures NextOp(head + WriteOp(op, pad)[..k], |head|).None?
  {
    var s := WriteOp(op, pad);
    var pl := head + s[..k];
    NextOpReadsBack(head, op, pad, []);
    assert pl + s[k..] == head + s + [];
    hide NextOp, WriteOp;
    if NextOp(pl, |head|).Some? {
      NextOpOfPrefix(pl, s[k..], |head|);
    }
  }

  lemma UnknownOpIsNone(pl: seq<byte>, p: nat)
    requires p < |pl| && !(1 <= pl[p] <= 6)
    ensures NextOp(pl, p).None?
  {
  }

  // ---------- the replay ----------

  function Fill(c: Canvas, x: int, y: int, w: int, h: int, colour: Rgb): (r: Canvas)
    ensures r.Keys == c.Keys
  {
    map t | t in c :: if x <= t.0 < x + w && y <= t.1 < y + h then colour else c[t]
  }

  /** The canvas moved up by n rows, or down by -n; what has no source row stays. */
  function Shift(c: Canvas, n: int): (r: Canvas)
    ensures r.Keys == c.Keys
  {
    map t | t in c :: if (t.0, t.1 + n) in c then c[(t.0, t.1 + n)] else c[t]
  }

  function PutImage(c: Canvas, op: Op): (r: Canvas)
    requires op.Blit? && |op.data| == ImageBytes(op.w, op.h)
    ensures r.Keys == c.Keys
  {
    map t | t in c :: if Inside(t, op.x, op.y, op.w, op.h) then BlitPixel(t, op) else c[t]
  }

  /** An op 0x06 is unknown to the browser, and an image without pixels makes it give up. */
  predicate Stops(op: Op) {
    op.Rle? || (op.Blit? && ImageBytes(op.w, op.h) == 0)
  }

  function Paint(c: Canvas, w: nat, h: nat, op: Op): (r: Canvas)
    requires !Stops(op) && (op.Blit? ==> |op.data| == ImageBytes(op.w, op.h))
    ensures r.Keys == c.Keys
  {
    match op
    case Cls(colour) => Fill(c, 0, 0, w, h, colour)
    case Rect(x, y, rw, rh, colour) => Fill(c, x, y, rw, rh, colour)
    case Dot(x, y, colour) => Fill(c, x, y, 1, 1, colour)
    case Scroll(lines, bg) =>
      if lines > 0 then Fill(Shift(c, lines), 0, h - lines, w, lines, bg)
      else if lines < 0 then Fill(Shift(c, lines), 0, 0, w, -lines, bg)
      else c
    case Blit(_, _, _, _, _) => PutImage(c, op)
  }

  /** The canvas after the operations from p on. */
  function Replay(pl: seq<byte>, p: nat, w: nat, h: nat, c: Canvas): (r: Canvas)
    ensures r.Keys == c.Keys
    decreases |pl| - p
  {
    var next := NextOp(pl, p);
    if next.None? || Stops(next.value.0) then c
    else Replay(pl, next.value.1, w, h, Paint(c, w, h, next.value.0))
  }

  /** The canvas of a message of a w by h display. */
  predicate HasSize(c: Canvas, w: nat, h: nat) {
    c.Keys == set x, y | 0 <= x < w && 0 <= y < h :: (x, y)
  }

  /** What a canvas of a new size shows. */
  function BlankCanvas(w: nat, h: nat): (c: Canvas)
    ensures HasSize(c, w, h)
  {
    map x, y | 0 <= x < w && 0 <= y < h :: (x, y) := Rgb(0, 0, 0)
  }

  // ---------- what the operations do to a picture ----------

  /** A rectangle over the whole canvas is a clear screen. */
  lemma CoveringRectIsClear(c: Canvas, w: nat, h: nat, x: int, y: int, rw: nat, rh: nat, colour: Rgb)
    requires HasSize(c, w, h) && x <= 0 && y <= 0 && x + rw >= w && y + rh >= h
    ensures Paint(c, w, h, Rect(x, y, rw, rh, colour)) == Paint(c, w, h, Cls(colour))
  {
  }

  /** An image of one colour is a rectangle, wherever it lies. */
  lemma UniformImageIsRect(c: Canvas, w: nat, h: nat, x: int, y: int, bw: nat, bh: nat, data: seq<byte>, colour: Rgb)
    requires |data| == ImageBytes(bw, bh) > 0
    requires forall k :: 0 <= k < bw * bh ==>
               0 <= 4 * k < |data| - 2 && Rgb(data[4 * k], data[4 * k + 1], data[4 * k + 2]) == colour
    ensures Paint(c, w, h, Blit(x, y, bw, bh, data)) == Paint(c, w, h, Rect(x, y, bw, bh, colour))
  {
    var op := Blit(x, y, bw, bh, data);
    forall t | t in c && Inside(t, x, y, bw, bh)
      ensures BlitPixel(t, op) == colour
    {
      var k := Index(t, x, y, bw, bh);
      assert k * 4 == 4 * k;
    }
    assert PutImage(c, op) == Fill(c, x, y, bw, bh, colour);
  }

  /** The rows of a picture one after the other. */
  function Rows<T>(rows: seq<seq<T>>): seq<T> {
    if rows == [] then [] else rows[0] + Rows(rows[1..])
  }

  lemma OneMore(n: int, w: int)
    ensures (n + 1) * w == n * w + w
  {
  }

  lemma {:induction false} RowsLength<T>(rows: seq<seq<T>>, w: nat)
    requires forall r :: r in rows ==> |r| == w
    ensures |Rows(rows)| == |rows| * w
    decreases |rows|
  {
    if rows != [] {
      assert rows[0] in rows && forall r :: r in rows[1..] ==> r in rows;
      RowsLength(rows[1..], w);
      OneMore(|rows| - 1, w);
    }
  }

  lemma {:induction false} RowsAt<T>(rows: seq<seq<T>>, w: nat, dx: nat, dy: nat)
    requires (forall r :: r in rows ==> |r| == w) && dx < w && dy < |rows|
    ensures 0 <= dy * w + dx < |Rows(rows)| == |rows| * w && Rows(rows)[dy * w + dx] == rows[dy][dx]
    decreases dy
  {
    RowsLength(rows, w);
    assert rows[0] in rows && forall r :: r in rows[1..] ==> r in rows;
    var rest := Rows(rows[1..]);
    assert Rows(rows) == rows[0] + rest;
    hide Rows;
    if dy > 0 {
      RowsAt(rows[1..], w, dx, dy - 1);
      var k := (dy - 1) * w + dx;
      OneMore(dy - 1, w);
      assert dy * w + dx == w + k;
      assert (rows[0] + rest)[w + k] == rest[k] && rows[1..][dy - 1] == rows[dy];
    } else {
      assert 0 * w + dx == dx;
    }
  }

  /** Four bytes for every pixel. */
  function Rgba(pixels: seq<Rgb>, alpha: byte): (s: seq<byte>)
    ensures |s| == 4 * |pixels|
  {
    if pixels == [] then []
    else [pixels[0].r, pixels[0].g, pixels[0].b, alpha] + Rgba(pixels[1..], alpha)
  }

  lemma {:induction false} RgbaAt(pixels: seq<Rgb>, alpha: byte, k: nat)
    requires k < |pixels|
    ensures var s := Rgba(pixels, alpha);
            s[4 * k] == pixels[k].r && s[4 * k + 1] == pixels[k].g && s[4 * k + 2] == pixels[k].b
    decreases k
  {
    if k > 0 {
      RgbaAt(pixels[1..], alpha, k - 1);
    }
  }

  /** Pixel dx of row dy of an image is dx to the right of its corner and dy below it. */
  lemma BlitShowsRows(c: Canvas, w: nat, h: nat, x: int, y: int, bw: nat, rows: seq<seq<Rgb>>, alpha: byte, dx: nat, dy: nat)
    requires (forall r :: r in rows ==> |r| == bw) && dx < bw && dy < |rows| && (x + dx, y + dy) in c
    ensures var data := Rgba(Rows(rows), alpha);
            && |data| == ImageBytes(bw, |rows|) > 0
            && Paint(c, w, h, Blit(x, y, bw, |rows|, data))[(x + dx, y + dy)] == rows[dy][dx]
  {
    RowsAt(rows, bw, dx, dy);
    RgbaAt(Rows(rows), alpha, dy * bw + dx);
    var data := Rgba(Rows(rows), alpha);
    assert |data| == 4 * (|rows| * bw) && bw * |rows| == |rows| * bw;
    assert |data| > 0 by { assert dy * bw + dx < |Rows(rows)|; }
    var k := Index((x + dx, y + dy), x, y, bw, |rows|);
    assert k == dy * bw + dx;
  }

  lemma InCanvas(c: Canvas, w: nat, h: nat, t: Point)
    requires HasSize(c, w, h)
    ensures t in c <==> 0 <= t.0 < w && 0 <= t.1 < h
  {
    assert t in c.Keys <==> t in c;
  }

  lemma ScrolledPixel(c: Canvas, w: nat, h: nat, n: int, bg: Rgb, t: Point)
    requires HasSize(c, w, h) && t in c && n != 0
    ensures (t.0, t.1 + n) in c <==> 0 <= t.1 + n < h
    ensures Paint(c, w, h, Scroll(n, bg))[t] == if 0 <= t.1 + n < h then c[(t.0, t.1 + n)] else bg
  {
    hide HasSize;
    InCanvas(c, w, h, t);
    InCanvas(c, w, h, (t.0, t.1 + n));
  }

  lemma PaintKeepsSize(c: Canvas, w: nat, h: nat, op: Op)
    requires HasSize(c, w, h) && !Stops(op) && (op.Blit? ==> |op.data| == ImageBytes(op.w, op.h))
    ensures HasSize(Paint(c, w, h, op), w, h)
  {
    hide Paint;
  }

  /** Scrolling up and back down keeps every row but the first n, which the second scroll fills. */
  lemma ScrollBackKeepsTheRest(c: Canvas, w: nat, h: nat, n: int, up: Rgb, down: Rgb, t: Point)
    requires HasSize(c, w, h) && n > 0 && t in c
    ensures Paint(Paint(c, w, h, Scroll(n, up)), w, h, Scroll(-n, down))[t] == if t.1 < n then down else c[t]
  {
    hide Paint, HasSize;
    var m := Paint(c, w, h, Scroll(n, up));
    PaintKeepsSize(c, w, h, Scroll(n, up));
    InCanvas(c, w, h, t);
    ScrolledPixel(m, w, h, -n, down, t);
    if t.1 >= n {
      ScrolledPixel(c, w, h, n, up, (t.0, t.1 - n));
    }
  }

  // ---------- the tracer ----------

  /** Nearest 8-bit value of a 3-bit channel. */
  function Scale7(v: nat): byte
    requires v < 8
  {
    (v * 510 + 7) / 14
  }

  function Rgb332(c: byte): Rgb {
    Rgb(Scale7(c / 32), Scale7(c / 4 % 8), c % 4 * 85)
  }

  lemma Rgb332IsNearest(c: byte)
    ensures var p := Rgb332(c);
            && -7 <= 2 * (7 * p.r - 255 * (c / 32)) <= 7
            && -7 <= 2 * (7 * p.g - 255 * (c / 4 % 8)) <= 7
            && 3 * p.b == 255 * (c % 4)
  {
  }

  function TracePaint(t: Point, pixel: Option<Rgb>, op: Op): Option<Rgb>
    requires !op.Rle? && (op.Blit? ==> |op.data| == ImageBytes(op.w, op.h))
  {
    match op
    case Cls(colour) => Some(colour)
    case Rect(x, y, w, h, colour) => if Inside(t, x, y, w, h) then Some(colour) else pixel
    case Dot(x, y, colour) => if t == (x, y) then Some(colour) else pixel
    case Scroll(_, _) => None
    case Blit(x, y, w, h, _) => if Inside(t, x, y, w, h) then Some(BlitPixel(t, op)) else pixel
  }

  /** Position, pixels seen and colour after the runs of an RLE image; `wanted` is the traced pixel. */
  function TraceRuns(pl: seq<byte>, p: nat, seen: nat, total: nat, wanted: Option<nat>, pixel: Option<Rgb>): (r: (nat, nat, Option<Rgb>))
    requires p <= |pl|
    ensures p <= r.0 <= |pl|
    decreases |pl| - p
  {
    if seen >= total || p + 3 > |pl| then (p, seen, pixel) else
    var run := U16(pl, p);
    var hit := wanted.Some? && seen <= wanted.value < seen + run;
    TraceRuns(pl, p + 3, seen + run, total, wanted, if hit then Some(Rgb332(pl[p + 2])) else pixel)
  }

  function Wanted(t: Point, op: Op): Option<nat>
    requires op.Rle?
  {
    if Inside(t, op.x, op.y, op.w, op.h) then Some(Index(t, op.x, op.y, op.w, op.h)) else None
  }

  /** What the tracer reports for pixel t, with `pixel` known at p. */
  function Trace(pl: seq<byte>, p: nat, t: Point, pixel: Option<Rgb>): Option<Rgb>
    decreases |pl| - p
  {
    var next := NextOp(pl, p);
    if next.None? then pixel else
    var (op, q) := next.value;
    if op.Rle? then
      var (p', seen, pixel') := TraceRuns(pl, q, 0, op.w * op.h, Wanted(t, op), pixel);
      if seen != op.w * op.h then pixel' else Trace(pl, p', t, pixel')
    else Trace(pl, q, t, TracePaint(t, pixel, op))
  }

  lemma TraceEnds(pl: seq<byte>, p: nat, t: Point, pixel: Option<Rgb>)
    requires NextOp(pl, p).None?
    ensures Trace(pl, p, t, pixel) == pixel
  {
  }

  lemma TraceGoesOn(pl: seq<byte>, p: nat, t: Point, pixel: Option<Rgb>, op: Op, q: nat)
    requires NextOp(pl, p) == Some((op, q)) && !op.Rle?
    ensures Trace(pl, p, t, pixel) == Trace(pl, q, t, TracePaint(t, pixel, op))
  {
  }

  lemma TraceOfRle(pl: seq<byte>, p: nat, t: Point, pixel: Option<Rgb>, op: Op, q: nat)
    requires NextOp(pl, p) == Some((op, q)) && op.Rle?
    ensures var (p', seen, pixel') := TraceRuns(pl, q, 0, op.w * op.h, Wanted(t, op), pixel);
            Trace(pl, p, t, pixel) == if seen != op.w * op.h then pixel' else Trace(pl, p', t, pixel')
  {
  }

  // ---------- agreement ----------

  /** From p on the stream has no op that stops the replay but not the tracer. */
  predicate Classic(pl: seq<byte>, p: nat)
    decreases |pl| - p
  {
    var next := NextOp(pl, p);
    next.Some? ==> !Stops(next.value.0) && Classic(pl, next.value.1)
  }

  lemma PaintAgrees(c: Canvas, w: nat, h: nat, t: Point, pixel: Option<Rgb>, op: Op)
    requires !Stops(op) && (op.Blit? ==> |op.data| == ImageBytes(op.w, op.h))
    requires HasSize(c, w, h) && t in c && (pixel.Some? ==> c[t] == pixel.value)
    ensures var after := TracePaint(t, pixel, op); after.Some? ==> Paint(c, w, h, op)[t] == after.value
  {
  }

  lemma {:induction false} TraceAgrees(pl: seq<byte>, p: nat, w: nat, h: nat, t: Point, pixel: Option<Rgb>, c: Canvas)
    requires Classic(pl, p) && HasSize(c, w, h) && t in c && (pixel.Some? ==> c[t] == pixel.value)
    ensures var r := Trace(pl, p, t, pixel); r.Some? ==> Replay(pl, p, w, h, c)[t] == r.value
    decreases |pl| - p
  {
    var next := NextOp(pl, p);
    if next.Some? {
      var (op, q) := next.value;
      PaintAgrees(c, w, h, t, pixel, op);
      TraceAgrees(pl, q, w, h, t, TracePaint(t, pixel, op), Paint(c, w, h, op));
    }
  }

  /**
   On every stream without an op 0x06 and without an image of no pixels, cut off or ending in an
   unknown op though it may be, a colour the tracer reports is on the canvas after the replay,
   whatever was on it before.
   */
  lemma TracerIsSound(pl: seq<byte>, w: nat, h: nat, t: Point, c: Canvas)
    requires Classic(pl, 8) && HasSize(c, w, h) && t in c
    ensures var r := Trace(pl, 8, t, None); r.Some? ==> Replay(pl, 8, w, h, c)[t] == r.value
  {
    TraceAgrees(pl, 8, w, h, t, None, c);
  }

  // ---------- when the tracer is sound ----------

  /** The operations from p on are complete, run-length images included, and end with the stream. */
  predicate Whole(pl: seq<byte>, p: nat)
    decreases |pl| - p
  {
    p == |pl| ||
    (p < |pl| &&
     var next := NextOp(pl, p);
     next.Some? &&
     var (op, q) := next.value;
     if op.Rle? then
       var (p', seen, _) := TraceRuns(pl, q, 0, op.w * op.h, None, None);
       seen == op.w * op.h && Whole(pl, p')
     else Whole(pl, q))
  }

  /** Where the runs end does not depend on the pixel traced. */
  lemma {:induction false} RunsEndAlike(pl: seq<byte>, p: nat, seen: nat, total: nat, wanted: Option<nat>, pixel: Option<Rgb>, other: Option<Rgb>)
    requires p <= |pl|
    ensures var a, b := TraceRuns(pl, p, seen, total, wanted, pixel), TraceRuns(pl, p, seen, total, None, other);
            a.0 == b.0 && a.1 == b.1
    decreases |pl| - p
  {
    if seen < total && p + 3 <= |pl| {
      var run := U16(pl, p);
      var hit := wanted.Some? && seen <= wanted.value < seen + run;
      RunsEndAlike(pl, p + 3, seen + run, total, wanted, if hit then Some(Rgb332(pl[p + 2])) else pixel, other);
    }
  }

  lemma {:induction false} RunsOfPrefix(s: seq<byte>, tail: seq<byte>, p: nat, seen: nat, total: nat, wanted: Option<nat>, pixel: Option<Rgb>)
    requires p <= |s| && TraceRuns(s, p, seen, total, wanted, pixel).1 >= total
    ensures TraceRuns(s + tail, p, seen, total, wanted, pixel) == TraceRuns(s, p, seen, total, wanted, pixel)
    decreases |s| - p
  {
    if seen < total {
      assert p + 3 <= |s|;
      var run := U16(s, p);
      assert U16(s + tail, p) == run && (s + tail)[p + 2] == s[p + 2];
      var hit := wanted.Some? && seen <= wanted.value < seen + run;
      RunsOfPrefix(s, tail, p + 3, seen + run, total, wanted, if hit then Some(Rgb332(s[p + 2])) else pixel);
    }
  }

  function ClearTo(c: Rgb): seq<byte> {
    [1, c.b, c.g, c.r, 0]
  }

  lemma NextOpOfPrefix(s: seq<byte>, t: seq<byte>, p: nat)
    requires NextOp(s, p).Some?
    ensures NextOp(s + t, p) == NextOp(s, p)
  {
    var op := NextOp(s, p).value.0;
    if op.Blit? {
      assert (s + t)[p + 9..p + 9 + ImageBytes(op.w, op.h)] == s[p + 9..p + 9 + ImageBytes(op.w, op.h)];
    }
  }

  lemma {:induction false} TraceOfPrefix(s: seq<byte>, tail: seq<byte>, p: nat, t: Point, pixel: Option<Rgb>)
    requires p <= |s| && Whole(s, p)
    ensures Trace(s + tail, p, t, pixel) == Trace(s + tail, |s|, t, Trace(s, p, t, pixel))
    decreases |s| - p
  {
    hide NextOp, TraceRuns, Wanted, TracePaint;
    if p < |s| {
      NextOpOfPrefix(s, tail, p);
      var (op, q) := NextOp(s, p).value;
      if op.Rle? {
        var total, wanted := op.w * op.h, Wanted(t, op);
        RunsEndAlike(s, q, 0, total, wanted, pixel, None);
        RunsOfPrefix(s, tail, q, 0, total, wanted, pixel);
        var (p', _, pixel') := TraceRuns(s, q, 0, total, wanted, pixel);
        TraceOfPrefix(s, tail, p', t, pixel');
      } else {
        TraceOfPrefix(s, tail, q, t, TracePaint(t, pixel, op));
      }
    }
  }

  lemma {:induction false} StoppedReplay(s: seq<byte>, tail: seq<byte>, p: nat, w: nat, h: nat, c: Canvas)
    requires p <= |s| && Whole(s, p) && !Classic(s, p)
    ensures Replay(s + tail, p, w, h, c) == Replay(s, p, w, h, c)
    decreases |s| - p
  {
    NextOpOfPrefix(s, tail, p);
    var (op, q) := NextOp(s, p).value;
    if !Stops(op) {
      StoppedReplay(s, tail, q, w, h, Paint(c, w, h, op));
    }
  }

  lemma {:induction false} ClassicOfPrefix(s: seq<byte>, colour: Rgb, p: nat)
    requires p <= |s| && Whole(s, p) && Classic(s, p)
    ensures Classic(s + ClearTo(colour), p)
    decreases |s| - p
  {
    if p < |s| {
      NextOpOfPrefix(s, ClearTo(colour), p);
      ClassicOfPrefix(s, colour, NextOp(s, p).value.1);
    }
  }

  lemma TraceOfClear(s: seq<byte>, colour: Rgb, t: Point)
    requires |s| >= 8 && Whole(s, 8)
    ensures Trace(s + ClearTo(colour), 8, t, None) == Some(colour)
  {
    TraceOfPrefix(s, ClearTo(colour), 8, t, None);
    assert NextOp(s + ClearTo(colour), |s|) == Some((Cls(colour), |s| + 5));
  }

  /** What the tracer says of a clear screen behind the operations s is true of the replay. */
  ghost predicate ClearIsTraced(s: seq<byte>, w: nat, h: nat, t: Point, c: Canvas, colour: Rgb)
    requires t in c
  {
    Trace(s + ClearTo(colour), 8, t, None) == Some(Replay(s + ClearTo(colour), 8, w, h, c)[t])
  }

  /**
   Behind complete operations s, a clear screen to any colour is traced truly exactly when s
   contains neither a run-length image nor an image without pixels: those make the replay give
   up, not the tracer.
   */
  lemma TracerIsSoundIff(s: seq<byte>, w: nat, h: nat, t: Point, c: Canvas)
    requires |s| >= 8 && Whole(s, 8) && HasSize(c, w, h) && t in c
    ensures (forall colour :: ClearIsTraced(s, w, h, t, c, colour)) <==> Classic(s, 8)
  {
    if Classic(s, 8) {
      forall colour
        ensures ClearIsTraced(s, w, h, t, c, colour)
      {
        ClassicOfPrefix(s, colour, 8);
        TracerIsSound(s + ClearTo(colour), w, h, t, c);
        TraceOfClear(s, colour, t);
      }
    } else {
      var left := Replay(s, 8, w, h, c)[t];
      var other := left.(r := if left.r == 0 then 1 else 0);
      StoppedReplay(s, ClearTo(other), 8, w, h, c);
      TraceOfClear(s, other, t);
      assert !ClearIsTraced(s, w, h, t, c, other);
    }
  }

  // ---------- RLE images ----------

  datatype Run = Run(length: nat, colour: byte)

  function RunBytes(runs: seq<Run>): (s: seq<byte>)
    requires forall r :: r in runs ==> r.length < 0x1_0000
    ensures |s| == 3 * |runs|
  {
    if runs == [] then []
    else [runs[0].length % 256, runs[0].length / 256, runs[0].colour] + RunBytes(runs[1..])
  }

  /** The image pixel by pixel. */
  function Expand(runs: seq<Run>): seq<byte> {
    if runs == [] then [] else seq(runs[0].length, _ => runs[0].colour) + Expand(runs[1..])
  }

  /** No run starts behind the last pixel; the format ends an image there. */
  predicate NoIdleTail(runs: seq<Run>) {
    forall k :: 0 <= k < |runs| ==> |Expand(runs[k..])| > 0
  }

  lemma OneRun(pl: seq<byte>, p: nat, r: Run, seen: nat, total: nat, wanted: Option<nat>, pixel: Option<Rgb>)
    requires r.length < 0x1_0000 && seen < total && p + 3 <= |pl|
    requires pl[p] == r.length % 256 && pl[p + 1] == r.length / 256 && pl[p + 2] == r.colour
    ensures TraceRuns(pl, p, seen, total, wanted, pixel)
         == TraceRuns(pl, p + 3, seen + r.length, total, wanted,
                      if wanted.Some? && seen <= wanted.value < seen + r.length then Some(Rgb332(r.colour)) else pixel)
  {
    hide Rgb332;
    assert U16(pl, p) == r.length;
  }

  lemma NoRuns(pl: seq<byte>, p: nat, seen: nat, wanted: Option<nat>, pixel: Option<Rgb>)
    requires p <= |pl|
    ensures TraceRuns(pl, p, seen, seen, wanted, pixel) == (p, seen, pixel)
  {
  }

  /**
   For an op 0x06 whose runs, from p on, cover the image exactly, the tracer stops behind the
   last run and reports the colour that the expanded image has at the wanted pixel.
   */
  lemma {:induction false} RunsAreExpanded(pl: seq<byte>, p: nat, runs: seq<Run>, seen: nat, wanted: Option<nat>, pixel: Option<Rgb>)
    requires (forall r :: r in runs ==> r.length < 0x1_0000) && NoIdleTail(runs)
    requires p + 3 * |runs| <= |pl| && pl[p..p + 3 * |runs|] == RunBytes(runs)
    requires wanted.Some? ==> wanted.value < seen + |Expand(runs)|
    ensures TraceRuns(pl, p, seen, seen + |Expand(runs)|, wanted, pixel)
         == (p + 3 * |runs|, seen + |Expand(runs)|,
             if wanted.Some? && wanted.value >= seen then Some(Rgb332(Expand(runs)[wanted.value - seen])) else pixel)
    decreases |runs|
  {
    hide Rgb332, TraceRuns, NoIdleTail, RunBytes, Expand;
    if runs != [] {
      var r, rest := runs[0], runs[1..];
      assert r in runs && forall x :: x in rest ==> x in runs;
      NoIdleTailOfRest(runs);
      RunBytesAt(pl, p, runs);
      ExpandFirst(runs);
      var hit := wanted.Some? && seen <= wanted.value < seen + r.length;
      OneRun(pl, p, r, seen, seen + |Expand(runs)|, wanted, pixel);
      RunsAreExpanded(pl, p + 3, rest, seen + r.length, wanted, if hit then Some(Rgb332(r.colour)) else pixel);
    } else {
      ExpandNothing(runs);
      NoRuns(pl, p, seen, wanted, pixel);
    }
  }

  lemma ExpandNothing(runs: seq<Run>)
    requires runs == []
    ensures Expand(runs) == []
  {
  }

  lemma ExpandFirst(runs: seq<Run>)
    requires runs != []
    ensures |Expand(runs)| == runs[0].length + |Expand(runs[1..])|
    ensures forall k :: 0 <= k < |Expand(runs)| ==>
              Expand(runs)[k] == if k < runs[0].length then runs[0].colour else Expand(runs[1..])[k - runs[0].length]
  {
  }

  lemma NoIdleTailOfRest(runs: seq<Run>)
    requires runs != [] && NoIdleTail(runs)
    ensures |Expand(runs)| > 0 && NoIdleTail(runs[1..])
  {
    assert runs[0..] == runs;
    forall k | 0 <= k < |runs[1..]|
      ensures |Expand(runs[1..][k..])| > 0
    {
      assert runs[1..][k..] == runs[k + 1..];
    }
  }

  lemma RunBytesAt(pl: seq<byte>, p: nat, runs: seq<Run>)
    requires runs != [] && forall r :: r in runs ==> r.length < 0x1_0000
    requires p + 3 * |runs| <= |pl| && pl[p..p + 3 * |runs|] == RunBytes(runs)
    ensures pl[p] == runs[0].length % 256 && pl[p + 1] == runs[0].length / 256 && pl[p + 2] == runs[0].colour
    ensures pl[p + 3..p + 3 + 3 * |runs[1..]|] == RunBytes(runs[1..])
  {
    var b := RunBytes(runs);
    assert b[3..] == RunBytes(runs[1..]);
    assert pl[p..p + 3 * |runs|][3..] == pl[p + 3..p + 3 * |runs|];
    assert pl[p] == b[0] && pl[p + 1] == b[1] && pl[p + 2] == b[2];
  }

  /** A well-formed op 0x06 is traced as the expanded image painted at its place. */
  lemma RleImageIsTraced(pl: seq<byte>, p: nat, t: Point, pixel: Option<Rgb>, runs: seq<Run>)
    requires NextOp(pl, p).Some? && NextOp(pl, p).value.0.Rle?
    requires (forall r :: r in runs ==> r.length < 0x1_0000) && NoIdleTail(runs)
    requires var (op, q) := NextOp(pl, p).value;
             && |Expand(runs)| == op.w * op.h
             && q + 3 * |runs| <= |pl| && pl[q..q + 3 * |runs|] == RunBytes(runs)
    ensures var (op, q) := NextOp(pl, p).value;
            (Trace(pl, p, t, pixel)
            == Trace(pl, q + 3 * |runs|, t,
                     if Inside(t, op.x, op.y, op.w, op.h)
                     then Some(Rgb332(Expand(runs)[Index(t, op.x, op.y, op.w, op.h)])) else pixel))
  {
    hide Rgb332, TraceRuns, NextOp, RunBytes, Expand, NoIdleTail;
    var (op, q) := NextOp(pl, p).value;
    RunsAreExpanded(pl, q, runs, 0, Wanted(t, op), pixel);
  }

  /** The same for a run-length image whose runs expand to rows of colour bytes. */
  lemma RleShowsRows(pl: seq<byte>, p: nat, op: Op, q: nat, pixel: Option<Rgb>, runs: seq<Run>, rows: seq<seq<byte>>, dx: nat, dy: nat)
    requires NextOp(pl, p) == Some((op, q)) && op.Rle? && |rows| == op.h && forall r :: r in rows ==> |r| == op.w
    requires (forall r :: r in runs ==> r.length < 0x1_0000) && NoIdleTail(runs) && Expand(runs) == Rows(rows)
    requires q + 3 * |runs| <= |pl| && pl[q..q + 3 * |runs|] == RunBytes(runs)
    requires dx < op.w && dy < op.h
    ensures var t := (op.x + dx, op.y + dy);
            Trace(pl, p, t, pixel) == Trace(pl, q + 3 * |runs|, t, Some(Rgb332(rows[dy][dx])))
  {
    hide Trace, Rgb332, NextOp, NoIdleTail, RunBytes, Expand, Rows;
    var t := (op.x + dx, op.y + dy);
    RowsAt(rows, op.w, dx, dy);
    assert |rows| * op.w == op.w * op.h;
    RleImageIsTraced(pl, p, t, pixel, runs);
    assert Inside(t, op.x, op.y, op.w, op.h);
    assert Index(t, op.x, op.y, op.w, op.h) == dy * op.w + dx;
  }

  /** A message for a 10 by 10 display with one rectangle of one pixel, at column 2 and row 5. */
  const RECT_MESSAGE: seq<byte> := [67, 77, 68, 83, 10, 0, 10, 0, 2, 2, 0, 5, 0, 1, 0, 1, 0, 30, 20, 10, 0]

  lemma RectMessageIsRead(c: Canvas)
    requires HasSize(c, 10, 10)
    ensures U16(RECT_MESSAGE, 4) == 10 && U16(RECT_MESSAGE, 6) == 10
    ensures Trace(RECT_MESSAGE, 8, (2, 5), None) == Some(Rgb(10, 20, 30))
    ensures Trace(RECT_MESSAGE, 8, (5, 2), None) == None
    ensures (2, 5) in c && Replay(RECT_MESSAGE, 8, 10, 10, c)[(2, 5)] == Rgb(10, 20, 30)
  {
    var pl, op := RECT_MESSAGE, Rect(2, 5, 1, 1, Rgb(10, 20, 30));
    assert WriteOp(op, 0) == pl[8..];
    NextOpReadsBack(pl[..8], op, 0, []);
    assert pl[..8] + WriteOp(op, 0) + [] == pl;
    assert NextOp(pl, 8) == Some((op, 21)) && NextOp(pl, 21).None?;
    hide NextOp;
    TraceGoesOn(pl, 8, (2, 5), None, op, 21);
    TraceGoesOn(pl, 8, (5, 2), None, op, 21);
    TraceEnds(pl, 21, (2, 5), Some(Rgb(10, 20, 30)));
    TraceEnds(pl, 21, (5, 2), None);
    InCanvas(c, 10, 10, (2, 5));
    assert Classic(pl, 21) && Classic(pl, 8);
    TracerIsSound(pl, 10, 10, (2, 5), c);
  }
}
