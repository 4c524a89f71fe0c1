// Colour conversion on decompression: the range-limit table of jdmaster.c, the chroma
// tables of jdcolor.c and jdmerge.c, and ycc_rgb_convert.
module YccRgb {
  import opened Bytes

  const CENTERJSAMPLE := 128
  const RANGE_MASK := 0x3FF

  // ---- prepare_range_limit_table -----------------------------------------------------------------------------------

  function Clamp(x: int): byte {
    if x < 0 then 0 else if x > 255 then 255 else x
  }

  const LIMIT_SIZE := 5 * 256 + CENTERJSAMPLE

  // What the table holds. Its "simple" part is indexed from -256 on; the IDCT indexes the
  // other part modulo RANGE_MASK + 1, with values that are 128 too small.
  function LimitAt(k: nat): byte
    requires k < LIMIT_SIZE
  {
    if k < 256 then 0
    else if k < 512 then k - 256
    else if k < 896 then 255
    else if k < 1280 then 0
    else k - 1280
  }

  ghost predicate Limits(t: array<byte>)
    reads t
  {
    t.Length == LIMIT_SIZE && forall k :: 0 <= k < LIMIT_SIZE ==> t[k] == LimitAt(k)
  }

  lemma SimpleLimit(x: int)
    requires -256 <= x < 640
    ensures LimitAt(256 + x) == Clamp(x)
  {
  }

  lemma IdctLimit(x: int)
    requires -512 <= x < 512
    ensures LimitAt(256 + CENTERJSAMPLE + x % (RANGE_MASK + 1)) == Clamp(x + CENTERJSAMPLE)
  {
  }

  method PrepareRangeLimitTable() returns (t: array<byte>)
    ensures fresh(t) && Limits(t)
  {
    t := new byte[LIMIT_SIZE](_ => 0);
    for i := 0 to 256
      invariant forall k :: 0 <= k < 256 + i ==> t[k] == LimitAt(k)
    {
      t[256 + i] := i;
    }
    var p := 256 + CENTERJSAMPLE;
    for i := CENTERJSAMPLE to 512
      invariant forall k :: 0 <= k < p + i ==> t[k] == LimitAt(k)
    {
      t[p + i] := 255;
    }
    for i := 512 to 1024 - CENTERJSAMPLE
      invariant forall k :: 0 <= k < p + i ==> t[k] == LimitAt(k)
    {
      t[p + i] := 0;
    }
    for i := 0 to CENTERJSAMPLE
      invariant forall k :: 0 <= k < p + 1024 - CENTERJSAMPLE + i ==> t[k] == LimitAt(k)
    {
      t[p + (1024 - CENTERJSAMPLE) + i] := t[256 + i];
    }
  }

  // ---- build_ycc_rgb_table -----------------------------------------------------------------------------------------

  const SCALE := 0x1_0000
  const ONE_HALF := 0x8000

  // The constants of the conversion times 2^16, rounded.
  const FIX_1_40200 := 91881
  const FIX_1_77200 := 116130
  const FIX_0_71414 := 46802
  const FIX_0_34414 := 22554

  function RedOf(cr: byte): int { (FIX_1_40200 * (cr - CENTERJSAMPLE) + ONE_HALF) / SCALE }

  function BlueOf(cb: byte): int { (FIX_1_77200 * (cb - CENTERJSAMPLE) + ONE_HALF) / SCALE }

  function GreenOf(cb: byte, cr: byte): int {
    ((-FIX_0_34414) * (cb - CENTERJSAMPLE) + ONE_HALF + (-FIX_0_71414) * (cr - CENTERJSAMPLE)) / SCALE
  }

  class ChromaTables {
    const crR: array<int>
    const cbB: array<int>
    const crG: array<int>
    const cbG: array<int>

    ghost predicate Built()
      reads crR, cbB, crG, cbG
    {
      && crR.Length == cbB.Length == crG.Length == cbG.Length == 256
      && (forall i: byte :: crR[i] == RedOf(i) && cbB[i] == BlueOf(i))
      && (forall i: byte :: crG[i] == (-FIX_0_71414) * (i - CENTERJSAMPLE))
      && (forall i: byte :: cbG[i] == (-FIX_0_34414) * (i - CENTERJSAMPLE) + ONE_HALF)
    }

    constructor ()
      ensures Built() && fresh(crR) && fresh(cbB) && fresh(crG) && fresh(cbG)
    {
      crR := new int[256];
      cbB := new int[256];
      crG := new int[256];
      cbG := new int[256];
      new;
      var x := -CENTERJSAMPLE;
      for i := 0 to 256
        invariant x == i - CENTERJSAMPLE
        invariant forall k: byte :: k < i ==> crR[k] == RedOf(k) && cbB[k] == BlueOf(k)
        invariant forall k: byte :: k < i ==> crG[k] == (-FIX_0_71414) * (k - CENTERJSAMPLE)
        invariant forall k: byte :: k < i ==> cbG[k] == (-FIX_0_34414) * (k - CENTERJSAMPLE) + ONE_HALF
      {
        crR[i] := (FIX_1_40200 * x + ONE_HALF) / SCALE;
        cbB[i] := (FIX_1_77200 * x + ONE_HALF) / SCALE;
        crG[i] := (-FIX_0_71414) * x;
        cbG[i] := (-FIX_0_34414) * x + ONE_HALF;
        x := x + 1;
      }
    }

    // The chroma part of the calculation.
    method Terms(cb: byte, cr: byte) returns (cred: int, cgreen: int, cblue: int)
      requires Built()
      ensures cred == RedOf(cr) && cgreen == GreenOf(cb, cr) && cblue == BlueOf(cb)
    {
      cred := crR[cr];
      cgreen := (cbG[cb] + crG[cr]) / SCALE;
      cblue := cbB[cb];
    }
  }

  // The red and blue terms are the nearest integers to 1.40200 and 1.77200 times the
  // chroma value; the green term is off by at most a thousandth more than a half.
  lemma NearestTerms(cb: byte, cr: byte)
    ensures -500 <= 1000 * RedOf(cr) - 1402 * (cr - CENTERJSAMPLE) <= 500
    ensures -500 <= 1000 * BlueOf(cb) - 1772 * (cb - CENTERJSAMPLE) <= 500
    ensures -50200 <= 100000 * GreenOf(cb, cr) + 34414 * (cb - CENTERJSAMPLE) + 71414 * (cr - CENTERJSAMPLE) <= 50200
  {
    var u, v := cb - CENTERJSAMPLE, cr - CENTERJSAMPLE;
    var r, b, g := RedOf(cr), BlueOf(cb), GreenOf(cb, cr);
    assert r * SCALE <= FIX_1_40200 * v + ONE_HALF < (r + 1) * SCALE;
    assert b * SCALE <= FIX_1_77200 * u + ONE_HALF < (b + 1) * SCALE;
    assert g * SCALE <= -FIX_0_34414 * u + ONE_HALF - FIX_0_71414 * v < (g + 1) * SCALE;
  }

  // So every sum the conversion looks up is in the simple part of the range-limit table.
  lemma InLimits(y: byte, cb: byte, cr: byte)
    ensures -256 <= y + RedOf(cr) < 640 && -256 <= y + GreenOf(cb, cr) < 640 && -256 <= y + BlueOf(cb) < 640
  {
    NearestTerms(cb, cr);
  }

  // ---- Pixels ------------------------------------------------------------------------------------------------------

  const RGB_RED := 0
  const RGB_GREEN := 1
  const RGB_BLUE := 2
  const RGB_PIXELSIZE := 3

  function Pixel(y: byte, cb: byte, cr: byte): (p: seq<byte>)
    ensures |p| == RGB_PIXELSIZE
  {
    [Clamp(y + RedOf(cr)), Clamp(y + GreenOf(cb, cr)), Clamp(y + BlueOf(cb))]
  }

  // The first n pixels of a row.
  function PixelRow(ys: seq<byte>, cbs: seq<byte>, crs: seq<byte>, n: nat): (row: seq<byte>)
    requires n <= |ys| && n <= |cbs| && n <= |crs|
    ensures |row| == RGB_PIXELSIZE * n
  {
    if n == 0 then [] else PixelRow(ys, cbs, crs, n - 1) + Pixel(ys[n - 1], cbs[n - 1], crs[n - 1])
  }

  // The byte nearest to num / den, within tolerance / den.
  predicate Rounds(v: byte, num: int, den: int, tolerance: int) {
    && (v > 0 ==> v * den <= num + tolerance)
    && (v < 255 ==> num <= v * den + tolerance)
  }

  // The three bytes of a pixel: red is y + 1.40200 (cr - 128) and blue y + 1.77200 (cb - 128),
  // both rounded to the nearest integer and limited to a byte, and green
  // y - 0.34414 (cb - 128) - 0.71414 (cr - 128), within 0.502 before it is limited.
  predicate IsColour(red: byte, green: byte, blue: byte, y: byte, cb: byte, cr: byte) {
    && Rounds(red, 1000 * y + 1402 * (cr - 128), 1000, 500)
    && Rounds(green, 100000 * y - 34414 * (cb - 128) - 71414 * (cr - 128), 100000, 50200)
    && Rounds(blue, 1000 * y + 1772 * (cb - 128), 1000, 500)
  }

  // Red, green and blue are at the places 3 i, 3 i + 1 and 3 i + 2 of a row.
  predicate ColourAt(row: seq<byte>, i: nat, y: byte, cb: byte, cr: byte) {
    3 * i + 2 < |row| && IsColour(row[3 * i], row[3 * i + 1], row[3 * i + 2], y, cb, cr)
  }

  lemma ClampRounds(x: int, y: byte, num: int, den: int, tolerance: int)
    requires den > 0 && tolerance >= 0 && -tolerance <= den * (x - y) - num <= tolerance
    ensures Rounds(Clamp(x), den * y + num, den, tolerance)
  {
    if x < 0 {
      Scaled(den, x, 0);
    } else if x > 255 {
      Scaled(den, 255, x);
    }
  }

  lemma Scaled(den: int, a: int, b: int)
    requires den > 0 && a <= b
    ensures den * a <= den * b
  {
  }

  lemma PixelIsRight(y: byte, cb: byte, cr: byte)
    ensures ColourAt(Pixel(y, cb, cr), 0, y, cb, cr)
  {
    hide Rounds, Clamp, RedOf, GreenOf, BlueOf;
    NearestTerms(cb, cr);
    ClampRounds(y + RedOf(cr), y, 1402 * (cr - 128), 1000, 500);
    ClampRounds(y + GreenOf(cb, cr), y, -34414 * (cb - 128) - 71414 * (cr - 128), 100000, 50200);
    ClampRounds(y + BlueOf(cb), y, 1772 * (cb - 128), 1000, 500);
  }

  lemma {:induction false} RowIsRight(ys: seq<byte>, cbs: seq<byte>, crs: seq<byte>, n: nat)
    requires n <= |ys| && n <= |cbs| && n <= |crs|
    ensures forall i :: 0 <= i < n ==> ColourAt(PixelRow(ys, cbs, crs, n), i, ys[i], cbs[i], crs[i])
    decreases n
  {
    hide IsColour, Pixel;
    if n > 0 {
      RowIsRight(ys, cbs, crs, n - 1);
      var last := Pixel(ys[n - 1], cbs[n - 1], crs[n - 1]);
      PixelIsRight(ys[n - 1], cbs[n - 1], crs[n - 1]);
      var before, row := PixelRow(ys, cbs, crs, n - 1), PixelRow(ys, cbs, crs, n);
      forall i | 0 <= i < n ensures ColourAt(row, i, ys[i], cbs[i], crs[i]) {
        if i < n - 1 {
          assert ColourAt(before, i, ys[i], cbs[i], crs[i]);
        } else {
          assert ColourAt(last, 0, ys[i], cbs[i], crs[i]);
        }
      }
    }
  }

  // One pixel, from the luma value and the chroma terms, at position p.
  method EmitPixel(out: array<byte>, p: nat, limit: array<byte>, y: byte, cred: int, cgreen: int, cblue: int,
      ghost cb: byte, ghost cr: byte)
    requires p + RGB_PIXELSIZE <= out.Length && Limits(limit) && limit != out
    requires cred == RedOf(cr) && cgreen == GreenOf(cb, cr) && cblue == BlueOf(cb)
    modifies out
    ensures out[..p + RGB_PIXELSIZE] == old(out[..p]) + Pixel(y, cb, cr)
    ensures out[p + RGB_PIXELSIZE..] == old(out[p + RGB_PIXELSIZE..])
  {
    InLimits(y, cb, cr);
    SimpleLimit(y + cred);
    SimpleLimit(y + cgreen);
    SimpleLimit(y + cblue);
    out[p + RGB_RED] := limit[256 + (y + cred)];
    out[p + RGB_GREEN] := limit[256 + (y + cgreen)];
    out[p + RGB_BLUE] := limit[256 + (y + cblue)];
  }

  // ycc_rgb_convert, one row of it.
  method ConvertRow(ys: seq<byte>, cbs: seq<byte>, crs: seq<byte>, width: nat, tables: ChromaTables, limit: array<byte>,
      out: array<byte>)
    requires width <= |ys| && width <= |cbs| && width <= |crs| && out.Length == RGB_PIXELSIZE * width
    requires tables.Built() && Limits(limit) && limit != out
    requires out as object !in {tables.crR, tables.cbB, tables.crG, tables.cbG}
    modifies out
    ensures out[..] == PixelRow(ys, cbs, crs, width)
    ensures forall i :: 0 <= i < width ==> ColourAt(out[..], i, ys[i], cbs[i], crs[i])
  {
    hide Limits, Pixel, RedOf, GreenOf, BlueOf, ColourAt;
    RowIsRight(ys, cbs, crs, width);
    var p := 0;
    for col := 0 to width
      invariant p == RGB_PIXELSIZE * col && out[..p] == PixelRow(ys, cbs, crs, col) && tables.Built() && Limits(limit)
    {
      var y, cb, cr := ys[col], cbs[col], crs[col];
      var cred, cgreen, cblue := tables.Terms(cb, cr);
      EmitPixel(out, p, limit, y, cred, cgreen, cblue, cb, cr);
      p := p + RGB_PIXELSIZE;
    }
    assert out[..p] == out[..];
  }
}
