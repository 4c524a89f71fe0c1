// jdsample.c for images whose chroma is sampled 2:1 horizontally and 1:1 or 2:1
// vertically: each row group is upsampled into a conversion buffer, from which rows are
// colour-converted as the application has room for them.
module SepUpsample {
  import opened Bytes
  import opened YccRgb

  // ---- What is to come out -----------------------------------------------------------------------------------------

  // max_v_samp_factor, and the output width in pixels.
  datatype Geometry = Geometry(v: nat, width: nat)

  predicate GoodGeometry(geo: Geometry) {
    geo.v == 1 || geo.v == 2
  }

  // The rows of the three components that the upsampler is given.
  datatype Planes = Planes(y: seq<seq<byte>>, cb: seq<seq<byte>>, cr: seq<seq<byte>>)

  // One row group: v rows of luma and one row of each chroma component.
  datatype Group = Group(ys: seq<seq<byte>>, cb: seq<byte>, cr: seq<byte>)

  predicate GoodGroup(geo: Geometry, g: Group) {
    && GoodGeometry(geo) && |g.ys| == geo.v && (forall k :: 0 <= k < geo.v ==> |g.ys[k]| >= geo.width)
    && 2 * |g.cb| >= geo.width && 2 * |g.cr| >= geo.width
  }

  predicate HasGroup(geo: Geometry, p: Planes, ctr: nat) {
    && GoodGeometry(geo) && geo.v * ctr + geo.v <= |p.y| && ctr < |p.cb| && ctr < |p.cr|
    && GoodGroup(geo, Group(p.y[geo.v * ctr..geo.v * ctr + geo.v], p.cb[ctr], p.cr[ctr]))
  }

  function GroupAt(geo: Geometry, p: Planes, ctr: nat): (g: Group)
    requires HasGroup(geo, p, ctr)
    ensures GoodGroup(geo, g)
  {
    Group(p.y[geo.v * ctr..geo.v * ctr + geo.v], p.cb[ctr], p.cr[ctr])
  }

  // A chroma row with each sample doubled.
  function Doubled(c: seq<byte>, width: nat): (d: seq<byte>)
    requires 2 * |c| >= width
    ensures |d| == width && forall j :: 0 <= j < width ==> d[j] == c[j / 2]
  {
    seq(width, j requires 0 <= j < width => c[j / 2])
  }

  // Row k of the group in the output colour space.
  function RowOf(geo: Geometry, g: Group, k: nat): (row: seq<byte>)
    requires GoodGroup(geo, g) && k < geo.v
    ensures |row| == RGB_PIXELSIZE * geo.width
  {
    PixelRow(g.ys[k], Doubled(g.cb, geo.width), Doubled(g.cr, geo.width), geo.width)
  }

  function Least(a: nat, b: nat): nat { if a < b then a else b }

  // How many rows one call delivers: what is left of the group after phase rows of it, but
  // not more than are left of the image or than there is room for.
  function Count(v: nat, phase: nat, left: nat, room: nat): (n: nat)
    requires phase <= v
    ensures n <= v - phase && n <= left && n <= room && (n == v - phase || n == left || n == room)
  {
    Least(Least(v - phase, left), room)
  }

  // ---- Output rows -------------------------------------------------------------------------------------------------

  // Rows of the application's buffer, all different.
  predicate OutputRows(geo: Geometry, out: seq<array<byte>>) {
    && (forall i :: 0 <= i < |out| ==> out[i].Length == RGB_PIXELSIZE * geo.width)
    && (forall i, j :: 0 <= i < j < |out| ==> out[i] != out[j])
  }

  // They are not among the decompressor's own arrays.
  predicate Apart(out: seq<array<byte>>, tables: ChromaTables, limit: array<byte>) {
    forall i :: 0 <= i < |out| ==>
        out[i] != limit
        && out[i] as object !in {tables.crR, tables.cbB, tables.crG, tables.cbG}
  }

  // Rows phase, phase + 1, ... of the group, n in all.
  ghost predicate Delivered(geo: Geometry, g: Group, phase: nat, n: nat, out: seq<array<byte>>)
    reads out
  {
    && GoodGroup(geo, g) && phase + n <= geo.v && n <= |out|
    && forall r :: phase <= r < phase + n ==> out[r - phase][..] == RowOf(geo, g, r)
  }

  // Each pixel of a row has the colour of its own luma sample and of the chroma samples it
  // shares with its neighbours.
  predicate RowShown(row: seq<byte>, width: nat, y: seq<byte>, cb: seq<byte>, cr: seq<byte>) {
    && |row| == 3 * width && width <= |y| && width <= 2 * |cb| && width <= 2 * |cr|
    && forall i :: 0 <= i < width ==> ColourAt(row, i, y[i], cb[i / 2], cr[i / 2])
  }

  // The n output rows are those from row phase of the group at ctr on.
  ghost predicate Shown(geo: Geometry, p: Planes, ctr: nat, phase: nat, n: nat, out: seq<array<byte>>)
    requires HasGroup(geo, p, ctr)
    reads out
  {
    && n <= |out| && phase + n <= geo.v
    && forall k :: 0 <= k < n ==> RowShown(out[k][..], geo.width, p.y[geo.v * ctr + phase + k], p.cb[ctr], p.cr[ctr])
  }

  lemma RowOfIsShown(geo: Geometry, g: Group, k: nat)
    requires GoodGroup(geo, g) && k < geo.v
    ensures RowShown(RowOf(geo, g, k), geo.width, g.ys[k], g.cb, g.cr)
  {
    hide ColourAt;
    RowIsRight(g.ys[k], Doubled(g.cb, geo.width), Doubled(g.cr, geo.width), geo.width);
  }

  lemma DeliveredIsShown(geo: Geometry, p: Planes, ctr: nat, phase: nat, n: nat, out: seq<array<byte>>)
    requires HasGroup(geo, p, ctr) && Delivered(geo, GroupAt(geo, p, ctr), phase, n, out)
    ensures Shown(geo, p, ctr, phase, n, out)
  {
    hide RowOf, RowShown;
    var g := GroupAt(geo, p, ctr);
    forall k | 0 <= k < n ensures RowShown(out[k][..], geo.width, p.y[geo.v * ctr + phase + k], p.cb[ctr], p.cr[ctr]) {
      assert out[phase + k - phase][..] == RowOf(geo, g, phase + k);
      RowOfIsShown(geo, g, phase + k);
      assert g.ys[phase + k] == p.y[geo.v * ctr + phase + k];
    }
  }

  // ---- h2v1_upsample and h2v2_upsample -----------------------------------------------------------------------------

  // One row of chroma; two samples are written at a time, so that there may be one too many.
  method DoubleRow(c: seq<byte>, width: nat, out: array<byte>)
    requires 2 * |c| >= width && out.Length >= width + width % 2
    modifies out
    ensures out[..width] == Doubled(c, width)
  {
    var inptr, outptr := 0, 0;
    while outptr < width
      invariant outptr == 2 * inptr <= width + width % 2
      invariant forall j :: 0 <= j < outptr ==> out[j] == c[j / 2]
    {
      var invalue := c[inptr];
      inptr := inptr + 1;
      out[outptr] := invalue;
      outptr := outptr + 1;
      out[outptr] := invalue;
      outptr := outptr + 1;
    }
  }

  method CopyRow(from: array<byte>, to: array<byte>, width: nat)
    requires width <= from.Length && width <= to.Length && from != to
    modifies to
    ensures to[..width] == from[..width]
  {
    for j := 0 to width
      invariant forall k :: 0 <= k < j ==> to[k] == from[k]
    {
      to[j] := from[j];
    }
  }

  class SepUpsampler {
    const geo: Geometry
    const tables: ChromaTables
    const limit: array<byte>
    const cbBuf: seq<array<byte>>    // the conversion buffer of each chroma component
    const crBuf: seq<array<byte>>
    var lumaRow: nat                 // full-size components stay where they are
    var nextRowOut: nat              // rows emitted from the buffer
    var rowsToGo: nat                // rows left in the image
    ghost var group: Group           // what is in the buffer

    ghost predicate BuffersOk()
      reads tables.crR, tables.cbB, tables.crG, tables.cbG, limit
    {
      && GoodGeometry(geo) && tables.Built() && Limits(limit)
      && |cbBuf| == |crBuf| == geo.v && Apart(cbBuf, tables, limit) && Apart(crBuf, tables, limit)
      && (forall k :: 0 <= k < geo.v ==> cbBuf[k].Length == crBuf[k].Length == geo.width + geo.width % 2)
      && (forall k, l :: 0 <= k < geo.v && 0 <= l < geo.v ==> cbBuf[k] != crBuf[l])
      && (forall k, l :: 0 <= k < l < geo.v ==> cbBuf[k] != cbBuf[l] && crBuf[k] != crBuf[l])
    }

    ghost predicate Filled()
      reads cbBuf, crBuf, `group
    {
      && GoodGroup(geo, group) && |cbBuf| == |crBuf| == geo.v
      && forall k :: 0 <= k < geo.v ==>
           && cbBuf[k].Length >= geo.width && crBuf[k].Length >= geo.width
           && cbBuf[k][..geo.width] == Doubled(group.cb, geo.width)
           && crBuf[k][..geo.width] == Doubled(group.cr, geo.width)
    }

    ghost predicate Valid()
      reads this, cbBuf, crBuf, tables.crR, tables.cbB, tables.crG, tables.cbG, limit
    {
      BuffersOk() && nextRowOut <= geo.v && (nextRowOut < geo.v ==> Filled())
    }

    // Rows of the current group that have been delivered; none of the next one.
    function Phase(): (p: nat)
      reads `nextRowOut
    {
      if nextRowOut >= geo.v then 0 else nextRowOut
    }

    predicate Free(out: seq<array<byte>>) {
      OutputRows(geo, out) && Apart(out, tables, limit)
          && forall i :: 0 <= i < |out| ==> out[i] !in cbBuf && out[i] !in crBuf
    }

    // jinit_upsampler and start_pass_upsample
    constructor (geo: Geometry, height: nat, tables: ChromaTables, limit: array<byte>)
      requires GoodGeometry(geo) && tables.Built() && Limits(limit)
      ensures Valid() && this.geo == geo && this.tables == tables && this.limit == limit
      ensures nextRowOut == geo.v && rowsToGo == height && fresh(cbBuf) && fresh(crBuf)
    {
      var w := geo.width + geo.width % 2;
      var b0, b1, r0, r1 := new byte[w], new byte[w], new byte[w], new byte[w];
      this.geo, this.tables, this.limit := geo, tables, limit;
      cbBuf := if geo.v == 1 then [b0] else [b0, b1];
      crBuf := if geo.v == 1 then [r0] else [r0, r1];
      lumaRow, nextRowOut, rowsToGo := 0, geo.v, height;
      group := Group([], [], []);
    }

    // Fills the conversion buffer.
    method Fill(input: Planes, ctr: nat)
      requires BuffersOk() && HasGroup(geo, input, ctr)
      modifies this`group, this`lumaRow, cbBuf, crBuf
      ensures BuffersOk() && Filled() && group == GroupAt(geo, input, ctr) && lumaRow == geo.v * ctr
    {
      hide Limits, tables.Built, Doubled;
      lumaRow := geo.v * ctr;
      group := GroupAt(geo, input, ctr);
      DoubleRow(input.cb[ctr], geo.width, cbBuf[0]);
      DoubleRow(input.cr[ctr], geo.width, crBuf[0]);
      if geo.v == 2 {
        CopyRow(cbBuf[0], cbBuf[1], geo.width);
        CopyRow(crBuf[0], crBuf[1], geo.width);
      }
    }

    // sep_upsample: out are the rows that the application still has room for. As long as a
    // group is not consumed the caller has it at the same place.
    method Upsample(input: Planes, ctr0: nat, out: seq<array<byte>>) returns (ctr: nat, n: nat)
      requires Valid() && HasGroup(geo, input, ctr0) && Free(out)
      requires nextRowOut < geo.v ==> group == GroupAt(geo, input, ctr0) && lumaRow == geo.v * ctr0
      modifies this`group, this`lumaRow, this`nextRowOut, this`rowsToGo, cbBuf, crBuf, out
      ensures Valid()
      ensures n == Count(geo.v, old(Phase()), old(rowsToGo), |out|)
      ensures rowsToGo == old(rowsToGo) - n && nextRowOut == old(Phase()) + n
      ensures ctr == if nextRowOut == geo.v then ctr0 + 1 else ctr0
      ensures nextRowOut < geo.v ==> group == GroupAt(geo, input, ctr0) && lumaRow == geo.v * ctr0
      ensures Delivered(geo, GroupAt(geo, input, ctr0), old(Phase()), n, out)
      ensures Shown(geo, input, ctr0, old(Phase()), n, out)
    {
      hide HasGroup, GroupAt, BuffersOk, Filled, RowOf, Shown;
      if nextRowOut >= geo.v {
        Fill(input, ctr0);
        nextRowOut := 0;
      }
      n := Least(Least(geo.v - nextRowOut, rowsToGo), |out|);
      Convert(input, ctr0, out, n);
      rowsToGo := rowsToGo - n;
      nextRowOut := nextRowOut + n;
      ctr := if nextRowOut >= geo.v then ctr0 + 1 else ctr0;
      DeliveredIsShown(geo, input, ctr0, old(Phase()), n, out);
    }

    // ycc_rgb_convert on n rows from the buffer.
    method Convert(input: Planes, ghost ctr: nat, out: seq<array<byte>>, n: nat)
      requires BuffersOk() && Filled() && nextRowOut + n <= geo.v && HasGroup(geo, input, ctr)
          && group == GroupAt(geo, input, ctr)
      requires lumaRow == geo.v * ctr && Free(out) && n <= |out|
      modifies out
      ensures BuffersOk() && Filled() && Delivered(geo, group, nextRowOut, n, out)
    {
      hide HasGroup, GroupAt, BuffersOk, Filled, RowOf;
      for i := 0 to n
        invariant BuffersOk() && Filled() && Delivered(geo, group, nextRowOut, i, out)
      {
        FilledGroup();
        ConvertOne(input, ctr, out[i], nextRowOut + i, out);
      }
    }

    lemma FilledGroup()
      requires Filled()
      ensures GoodGroup(geo, group)
    {
    }

    method ConvertOne(input: Planes, ghost ctr: nat, row: array<byte>, r: nat, ghost out: seq<array<byte>>)
      requires BuffersOk() && Filled() && r < geo.v && HasGroup(geo, input, ctr) && group == GroupAt(geo, input, ctr)
      requires lumaRow == geo.v * ctr && Free(out) && row in out && GoodGroup(geo, group)
      modifies row
      ensures BuffersOk() && Filled() && row[..] == RowOf(geo, group, r)
    {
      hide Limits, PixelRow, Doubled;
      assert input.y[lumaRow + r] == group.ys[r];
      ConvertRow(input.y[lumaRow + r], cbBuf[r][..geo.width], crBuf[r][..geo.width], geo.width, tables, limit, row);
    }
  }
}
