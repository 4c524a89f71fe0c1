// jdmerge.c: upsampling and colour conversion in one pass. The chroma part of the
// calculation is done once for two or four pixels, and the second row of a group is kept
// in a spare row when the application has room for one only.
module MergedUpsample {
  import opened Bytes
  import opened YccRgb
  import opened SepUpsample

  // The first n pixels of a row, each chroma sample serving two of them.
  function MergedRow(ys: seq<byte>, cb: seq<byte>, cr: seq<byte>, n: nat): (row: seq<byte>)
    requires n <= |ys| && n <= 2 * |cb| && n <= 2 * |cr|
    ensures |row| == RGB_PIXELSIZE * n
  {
    if n == 0 then [] else MergedRow(ys, cb, cr, n - 1) + Pixel(ys[n - 1], cb[(n - 1) / 2], cr[(n - 1) / 2])
  }

  // It is the row that upsampling followed by conversion gives.
  lemma {:induction false} MergedIsSeparate(ys: seq<byte>, cb: seq<byte>, cr: seq<byte>, width: nat, n: nat)
    requires n <= width && n <= |ys| && width <= 2 * |cb| && width <= 2 * |cr|
    ensures MergedRow(ys, cb, cr, n) == PixelRow(ys, Doubled(cb, width), Doubled(cr, width), n)
    decreases n
  {
    hide Pixel;
    if n > 0 { MergedIsSeparate(ys, cb, cr, width, n - 1); }
  }

  // Two pixels with the same chroma, or one more at the end of an odd row.
  lemma TwoMore(ys: seq<byte>, cb: seq<byte>, cr: seq<byte>, i: nat)
    requires 2 * i + 1 <= |ys| && i < |cb| && i < |cr|
    ensures MergedRow(ys, cb, cr, 2 * i + 1) == MergedRow(ys, cb, cr, 2 * i) + Pixel(ys[2 * i], cb[i], cr[i])
    ensures 2 * i + 2 <= |ys| ==>
              MergedRow(ys, cb, cr, 2 * i + 2) == (MergedRow(ys, cb, cr, 2 * i) + Pixel(ys[2 * i], cb[i], cr[i]))
                  + Pixel(ys[2 * i + 1], cb[i], cr[i])
  {
    hide Pixel;
  }

  class MergedUpsampler {
    const geo: Geometry
    const tables: ChromaTables
    const limit: array<byte>
    const spareRow: array<byte>
    var spareFull: bool
    var rowsToGo: nat            // only kept up to date for 2:1 vertical sampling
    ghost var group: Group       // the group whose second row the spare row holds
    ghost var left: nat          // rows left in the image

    ghost predicate Fixed()
      reads tables.crR, tables.cbB, tables.crG, tables.cbG, limit
    {
      GoodGeometry(geo) && tables.Built() && Limits(limit) && Free([spareRow])
    }

    predicate Free(out: seq<array<byte>>) {
      OutputRows(geo, out) && Apart(out, tables, limit)
    }

    ghost predicate Valid()
      reads this, spareRow, tables.crR, tables.cbB, tables.crG, tables.cbG, limit
    {
      && Fixed()
      && (geo.v == 2 ==> rowsToGo == left)
      && (spareFull ==> geo.v == 2 && GoodGroup(geo, group) && spareRow[..] == RowOf(geo, group, 1))
    }

    function Phase(): (p: nat)
      ensures p <= 1
      reads `spareFull
    {
      if spareFull then 1 else 0
    }

    // jinit_merged_upsampler and start_pass_merged_upsample
    constructor (geo: Geometry, height: nat, tables: ChromaTables, limit: array<byte>)
      requires GoodGeometry(geo) && tables.Built() && Limits(limit)
      ensures Valid() && this.geo == geo && this.tables == tables && this.limit == limit && !spareFull && left == height
          && fresh(spareRow)
    {
      this.geo, this.tables, this.limit := geo, tables, limit;
      spareRow := new byte[RGB_PIXELSIZE * geo.width];
      spareFull, rowsToGo, left := false, height, height;
      group := Group([], [], []);
    }

    // Two pixels of a row.
    method PutTwo(row: array<byte>, ys: seq<byte>, i: nat, cred: int, cgreen: int, cblue: int, ghost cb: seq<byte>,
        ghost cr: seq<byte>)
      requires Limits(limit) && limit != row && 2 * i + 2 <= |ys| && i < |cb| && i < |cr|
          && RGB_PIXELSIZE * (2 * i + 2) <= row.Length
      requires cred == RedOf(cr[i]) && cgreen == GreenOf(cb[i], cr[i]) && cblue == BlueOf(cb[i])
      requires row[..6 * i] == MergedRow(ys, cb, cr, 2 * i)
      modifies row
      ensures row[..6 * i + 6] == MergedRow(ys, cb, cr, 2 * i + 2)
    {
      hide Limits, Pixel, RedOf, GreenOf, BlueOf, MergedRow;
      TwoMore(ys, cb, cr, i);
      EmitPixel(row, 6 * i, limit, ys[2 * i], cred, cgreen, cblue, cb[i], cr[i]);
      EmitPixel(row, 6 * i + 3, limit, ys[2 * i + 1], cred, cgreen, cblue, cb[i], cr[i]);
    }

    method PutLast(row: array<byte>, ys: seq<byte>, i: nat, cred: int, cgreen: int, cblue: int, ghost cb: seq<byte>,
        ghost cr: seq<byte>)
      requires Limits(limit) && limit != row && 2 * i + 1 <= |ys| && i < |cb| && i < |cr|
          && RGB_PIXELSIZE * (2 * i + 1) <= row.Length
      requires cred == RedOf(cr[i]) && cgreen == GreenOf(cb[i], cr[i]) && cblue == BlueOf(cb[i])
      requires row[..6 * i] == MergedRow(ys, cb, cr, 2 * i)
      modifies row
      ensures row[..6 * i + 3] == MergedRow(ys, cb, cr, 2 * i + 1)
    {
      hide Limits, Pixel, RedOf, GreenOf, BlueOf, MergedRow;
      TwoMore(ys, cb, cr, i);
      EmitPixel(row, 6 * i, limit, ys[2 * i], cred, cgreen, cblue, cb[i], cr[i]);
    }

    // h2v1_merged_upsample
    method H2V1(input: Planes, ctr: nat, row: array<byte>)
      requires Fixed() && geo.v == 1 && HasGroup(geo, input, ctr) && Free([row])
      modifies row
      ensures Fixed() && row[..] == RowOf(geo, GroupAt(geo, input, ctr), 0)
    {
      hide Limits, Pixel, RedOf, GreenOf, BlueOf, MergedRow, PixelRow, Doubled, tables.Built;
      var ys, cbs, crs := input.y[ctr], input.cb[ctr], input.cr[ctr];
      assert [row][0] == row;
      NoPixels(ys, cbs, crs, row[..0]);
      for i := 0 to geo.width / 2
        invariant Limits(limit) && tables.Built() && row[..6 * i] == MergedRow(ys, cbs, crs, 2 * i)
      {
        var cred, cgreen, cblue := tables.Terms(cbs[i], crs[i]);
        PutTwo(row, ys, i, cred, cgreen, cblue, cbs, crs);
      }
      if geo.width % 2 == 1 {
        var i := geo.width / 2;
        var cred, cgreen, cblue := tables.Terms(cbs[i], crs[i]);
        PutLast(row, ys, i, cred, cgreen, cblue, cbs, crs);
      }
      assert row[..RGB_PIXELSIZE * geo.width] == row[..];
      MergedIsSeparate(ys, cbs, crs, geo.width, geo.width);
    }

    lemma NoPixels(ys: seq<byte>, cb: seq<byte>, cr: seq<byte>, none: seq<byte>)
      requires none == []
      ensures MergedRow(ys, cb, cr, 0) == none
    {
    }

    // h2v2_merged_upsample
    method H2V2(input: Planes, ctr: nat, row0: array<byte>, row1: array<byte>)
      requires Fixed() && geo.v == 2 && HasGroup(geo, input, ctr) && Free([row0, row1])
      modifies row0, row1
      ensures Fixed() && row0[..] == RowOf(geo, GroupAt(geo, input, ctr), 0)
          && row1[..] == RowOf(geo, GroupAt(geo, input, ctr), 1)
    {
      hide Limits, Pixel, RedOf, GreenOf, BlueOf, MergedRow, PixelRow, Doubled, tables.Built;
      var y0, y1, cbs, crs := input.y[2 * ctr], input.y[2 * ctr + 1], input.cb[ctr], input.cr[ctr];
      assert [row0, row1][0] == row0 && [row0, row1][1] == row1;
      NoPixels(y0, cbs, crs, row0[..0]);
      NoPixels(y1, cbs, crs, row1[..0]);
      for i := 0 to geo.width / 2
        invariant Limits(limit) && tables.Built()
        invariant row0[..6 * i] == MergedRow(y0, cbs, crs, 2 * i) && row1[..6 * i] == MergedRow(y1, cbs, crs, 2 * i)
      {
        var cred, cgreen, cblue := tables.Terms(cbs[i], crs[i]);
        PutTwo(row0, y0, i, cred, cgreen, cblue, cbs, crs);
        PutTwo(row1, y1, i, cred, cgreen, cblue, cbs, crs);
      }
      if geo.width % 2 == 1 {
        var i := geo.width / 2;
        var cred, cgreen, cblue := tables.Terms(cbs[i], crs[i]);
        PutLast(row0, y0, i, cred, cgreen, cblue, cbs, crs);
        PutLast(row1, y1, i, cred, cgreen, cblue, cbs, crs);
      }
      assert row0[..RGB_PIXELSIZE * geo.width] == row0[..] && row1[..RGB_PIXELSIZE * geo.width] == row1[..];
      MergedIsSeparate(y0, cbs, crs, geo.width, geo.width);
      MergedIsSeparate(y1, cbs, crs, geo.width, geo.width);
    }

    // merged_2v_upsample and merged_1v_upsample, on the rows that the application still
    // has room for. The caller stops at the end of the image and does not ask without
    // having room.
    method Upsample(input: Planes, ctr0: nat, out: seq<array<byte>>) returns (ctr: nat, n: nat)
      requires Valid() && HasGroup(geo, input, ctr0) && Free(out) && spareRow !in out && left > 0 && out != []
      requires spareFull ==> group == GroupAt(geo, input, ctr0)
      modifies this`group, this`left, this`spareFull, this`rowsToGo, spareRow, out
      ensures Valid()
      ensures n == Count(geo.v, old(Phase()), old(left), |out|) && left == old(left) - n
      ensures Phase() == (if old(Phase()) + n == geo.v then 0 else old(Phase()) + n)
      ensures ctr == if old(Phase()) + n == geo.v then ctr0 + 1 else ctr0
      ensures spareFull ==> group == GroupAt(geo, input, ctr0)
      ensures Delivered(geo, GroupAt(geo, input, ctr0), old(Phase()), n, out)
      ensures Shown(geo, input, ctr0, old(Phase()), n, out)
    {
      hide RowOf, HasGroup, GroupAt, tables.Built, Limits, Shown;
      GroupIsGood(geo, input, ctr0);
      if geo.v == 1 {
        Alone(out[0], out);
        H2V1(input, ctr0, out[0]);
        ctr, n := ctr0 + 1, 1;
        left := left - 1;
        DeliveredIsShown(geo, input, ctr0, old(Phase()), n, out);
        return;
      }
      if spareFull {
        CopyRow(spareRow, out[0], RGB_PIXELSIZE * geo.width);
        assert out[0][..] == out[0][..RGB_PIXELSIZE * geo.width]
            && spareRow[..] == spareRow[..RGB_PIXELSIZE * geo.width];
        n := 1;
        spareFull := false;
      } else {
        n := Least(Least(2, rowsToGo), |out|);
        var second := if n > 1 then out[1] else spareRow;
        Pair(out[0], second, out);
        if n <= 1 { spareFull := true; }
        H2V2(input, ctr0, out[0], second);
        group := GroupAt(geo, input, ctr0);
      }
      rowsToGo := rowsToGo - n;
      left := left - n;
      ctr := if spareFull then ctr0 else ctr0 + 1;
      DeliveredIsShown(geo, input, ctr0, old(Phase()), n, out);
    }

    lemma Alone(row: array<byte>, out: seq<array<byte>>)
      requires Free(out) && row in out
      ensures Free([row])
    {
    }

    lemma Pair(a: array<byte>, b: array<byte>, out: seq<array<byte>>)
      requires Free(out) && Free([spareRow]) && spareRow !in out && out != [] && a == out[0]
          && (b == spareRow || (|out| > 1 && b == out[1]))
      ensures Free([a, b])
    {
      assert [spareRow][0] == spareRow;
    }
  }

  lemma GroupIsGood(geo: Geometry, input: Planes, ctr: nat)
    requires HasGroup(geo, input, ctr)
    ensures GoodGroup(geo, GroupAt(geo, input, ctr))
  {
  }
}
