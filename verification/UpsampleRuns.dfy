// Whole images through both upsamplers: whatever number of rows the application asks for
// each time, merged upsampling delivers the same rows in the same portions as separate
// upsampling and conversion.
module UpsampleRuns {
  import opened Bytes
  import opened YccRgb
  import opened SepUpsample
  import opened MergedUpsample

  predicate HasImage(geo: Geometry, input: Planes, height: nat) {
    GoodGeometry(geo) && forall r :: 0 <= r < height ==> HasGroup(geo, input, Place(geo.v, r).ctr)
  }

  // The row group of a row and its place in it.
  datatype At = At(ctr: nat, phase: nat)

  function Place(v: nat, r: nat): (p: At)
    requires v > 0
    ensures p.phase < v
  {
    At(r / v, r % v)
  }

  lemma NextPlace(v: nat, done: nat, n: nat)
    requires v == 1 || v == 2
    requires Place(v, done).phase + n <= v
    ensures Place(v, done + n) == if Place(v, done).phase + n == v then At(Place(v, done).ctr + 1, 0)
                                  else At(Place(v, done).ctr, Place(v, done).phase + n)
    ensures forall r :: Place(v, done).phase <= r < Place(v, done).phase + n ==>
              Place(v, done + (r - Place(v, done).phase)) == At(Place(v, done).ctr, r)
  {
    if v == 1 { } else { }
  }

  function ImageRow(geo: Geometry, input: Planes, height: nat, r: nat): seq<byte>
    requires HasImage(geo, input, height) && r < height
  {
    RowOf(geo, GroupAt(geo, input, Place(geo.v, r).ctr), Place(geo.v, r).phase)
  }

  ghost predicate RowsUpTo(geo: Geometry, input: Planes, height: nat, rows: seq<seq<byte>>, n: nat) {
    && HasImage(geo, input, height) && |rows| == n <= height
    && forall r :: 0 <= r < n ==> rows[r] == ImageRow(geo, input, height, r)
  }

  // The number of rows that each call delivers, the i-th one having room for one row and
  // rooms(i) more.
  function Portions(v: nat, done: nat, height: nat, i: nat, rooms: nat -> nat): seq<nat>
    requires v > 0
    decreases height - done
  {
    if done >= height then []
    else
      var n := Count(v, Place(v, done).phase, height - done, rooms(i) + 1);
      [n] + Portions(v, done + n, height, i + 1, rooms)
  }

  method NewRows(geo: Geometry, n: nat) returns (out: seq<array<byte>>)
    ensures |out| == n && fresh(out) && OutputRows(geo, out)
  {
    out := [];
    for i := 0 to n
      invariant |out| == i && fresh(out) && OutputRows(geo, out)
    {
      var row := new byte[RGB_PIXELSIZE * geo.width];
      out := out + [row];
    }
  }

  // Takes the rows that were delivered.
  method Take(geo: Geometry, ghost input: Planes, ghost height: nat, rows: seq<seq<byte>>, out: seq<array<byte>>,
      ghost done: nat, n: nat)
    returns (more: seq<seq<byte>>)
    requires RowsUpTo(geo, input, height, rows, done) && done + n <= height && done < height && n > 0
    requires HasGroup(geo, input, Place(geo.v, done).ctr)
    requires Delivered(geo, GroupAt(geo, input, Place(geo.v, done).ctr), Place(geo.v, done).phase, n, out)
    ensures RowsUpTo(geo, input, height, more, done + n)
  {
    hide RowOf, HasGroup, GroupAt, Place;
    more := rows;
    ghost var p := Place(geo.v, done);
    NextPlace(geo.v, done, n);
    for i := 0 to n
      invariant RowsUpTo(geo, input, height, more, done + i)
    {
      assert out[(p.phase + i) - p.phase][..] == RowOf(geo, GroupAt(geo, input, p.ctr), p.phase + i);
      assert Place(geo.v, done + ((p.phase + i) - p.phase)) == At(p.ctr, p.phase + i);
      more := more + [out[i][..]];
    }
  }

  lemma PortionsStep(v: nat, done: nat, height: nat, i: nat, rooms: nat -> nat, counts: seq<nat>)
    requires v > 0 && done < height
    ensures var n := Count(v, Place(v, done).phase, height - done, rooms(i) + 1);
            n > 0 && counts + Portions(v, done, height, i, rooms) == (counts + [n])
                + Portions(v, done + n, height, i + 1, rooms)
  {
  }

  // done rows have been delivered, and the next one is in the group that the caller has
  // at ctr.
  ghost predicate SeparateAt(up: SepUpsampler, input: Planes, height: nat, ctr: nat, rows: seq<seq<byte>>, done: nat)
    reads up, up.cbBuf, up.crBuf, up.tables.crR, up.tables.cbB, up.tables.crG, up.tables.cbG, up.limit
  {
    && up.Valid() && done <= height && up.rowsToGo == height - done
    && Place(up.geo.v, done) == At(ctr, up.Phase())
    && (up.nextRowOut < up.geo.v ==>
        HasGroup(up.geo, input, ctr) && up.group == GroupAt(up.geo, input, ctr) && up.lumaRow == up.geo.v * ctr)
    && RowsUpTo(up.geo, input, height, rows, done)
  }

  // One request from the application.
  method StepSeparate(up: SepUpsampler, input: Planes, ctr0: nat, room: nat, rows: seq<seq<byte>>, ghost height: nat,
      ghost done: nat)
    returns (ctr: nat, n: nat, more: seq<seq<byte>>)
    requires SeparateAt(up, input, height, ctr0, rows, done) && done < height && room > 0
    modifies up, up.cbBuf, up.crBuf
    ensures up.geo.v > 0 && n == Count(up.geo.v, Place(up.geo.v, done).phase, height - done, room)
    ensures SeparateAt(up, input, height, ctr, more, done + n)
  {
    hide RowOf, HasGroup, GroupAt, Limits, Place, Count, Delivered, ImageRow;
    assert HasGroup(up.geo, input, Place(up.geo.v, done).ctr);
    var out := NewRows(up.geo, room);
    CountFits(up.geo.v, up.Phase(), height - done, |out|);
    NextPlace(up.geo.v, done, Count(up.geo.v, up.Phase(), height - done, |out|));
    ctr, n := up.Upsample(input, ctr0, out);
    CountPositive(up.geo.v, done, height, room);
    more := Take(up.geo, input, height, rows, out, done, n);
  }

  lemma CountPositive(v: nat, done: nat, height: nat, room: nat)
    requires v > 0 && done < height && room > 0
    ensures Count(v, Place(v, done).phase, height - done, room) > 0
  {
  }

  method RunSeparate(geo: Geometry, input: Planes, height: nat, rooms: nat -> nat, tables: ChromaTables,
      limit: array<byte>)
    returns (rows: seq<seq<byte>>, counts: seq<nat>)
    requires HasImage(geo, input, height) && tables.Built() && Limits(limit)
    ensures RowsUpTo(geo, input, height, rows, height) && counts == Portions(geo.v, 0, height, 0, rooms)
  {
    hide SeparateAt, Portions, Place, Count, ImageRow;
    var up := new SepUpsampler(geo, height, tables, limit);
    var ctr, done := 0, 0;
    ghost var all := Portions(geo.v, 0, height, 0, rooms);
    rows, counts := [], [];
    assert [] + all == all;
    assert SeparateAt(up, input, height, 0, [], 0) by { SeparateStart(up, input, height); }
    while done < height
      invariant fresh(up) && fresh(up.cbBuf) && fresh(up.crBuf) && done <= height
      invariant SeparateAt(up, input, height, ctr, rows, done)
      invariant counts + Portions(geo.v, done, height, |counts|, rooms) == all
    {
      PortionsStep(geo.v, done, height, |counts|, rooms, counts);
      var n;
      ctr, n, rows := StepSeparate(up, input, ctr, rooms(|counts|) + 1, rows, height, done);
      counts := counts + [n];
      CountFits(geo.v, Place(geo.v, done).phase, height - done, rooms(|counts| - 1) + 1);
      done := done + n;
    }
    SeparateRows(up, input, height, ctr, rows, done);
    NoPortions(geo.v, done, height, |counts|, rooms, counts);
  }

  lemma SeparateStart(up: SepUpsampler, input: Planes, height: nat)
    requires up.Valid() && HasImage(up.geo, input, height) && up.rowsToGo == height && up.nextRowOut == up.geo.v
    ensures SeparateAt(up, input, height, 0, [], 0)
  {
  }

  lemma SeparateRows(up: SepUpsampler, input: Planes, height: nat, ctr: nat, rows: seq<seq<byte>>, done: nat)
    requires SeparateAt(up, input, height, ctr, rows, done)
    ensures RowsUpTo(up.geo, input, height, rows, done)
  {
  }

  lemma CountFits(v: nat, phase: nat, left: nat, room: nat)
    requires phase <= v
    ensures phase + Count(v, phase, left, room) <= v && Count(v, phase, left, room) <= left
  {
  }

  lemma NoPortions(v: nat, done: nat, height: nat, i: nat, rooms: nat -> nat, counts: seq<nat>)
    requires v > 0 && done >= height
    ensures counts + Portions(v, done, height, i, rooms) == counts
  {
  }

  ghost predicate MergedAt(up: MergedUpsampler, input: Planes, height: nat, ctr: nat, rows: seq<seq<byte>>, done: nat)
    reads up, up.spareRow, up.tables.crR, up.tables.cbB, up.tables.crG, up.tables.cbG, up.limit
  {
    && up.Valid() && done <= height && up.left == height - done
    && Place(up.geo.v, done) == At(ctr, up.Phase())
    && (up.spareFull ==> HasGroup(up.geo, input, ctr) && up.group == GroupAt(up.geo, input, ctr))
    && RowsUpTo(up.geo, input, height, rows, done)
  }

  method StepMerged(up: MergedUpsampler, input: Planes, ctr0: nat, room: nat, rows: seq<seq<byte>>, ghost height: nat,
      ghost done: nat)
    returns (ctr: nat, n: nat, more: seq<seq<byte>>)
    requires MergedAt(up, input, height, ctr0, rows, done) && done < height && room > 0
    modifies up, up.spareRow
    ensures up.geo.v > 0 && n == Count(up.geo.v, Place(up.geo.v, done).phase, height - done, room)
    ensures MergedAt(up, input, height, ctr, more, done + n)
  {
    hide RowOf, HasGroup, GroupAt, Limits, Place, Count, Delivered, ImageRow;
    assert HasGroup(up.geo, input, Place(up.geo.v, done).ctr);
    var out := NewRows(up.geo, room);
    CountFits(up.geo.v, up.Phase(), height - done, |out|);
    NextPlace(up.geo.v, done, Count(up.geo.v, up.Phase(), height - done, |out|));
    ctr, n := up.Upsample(input, ctr0, out);
    CountPositive(up.geo.v, done, height, room);
    more := Take(up.geo, input, height, rows, out, done, n);
  }

  method RunMerged(geo: Geometry, input: Planes, height: nat, rooms: nat -> nat, tables: ChromaTables,
      limit: array<byte>)
    returns (rows: seq<seq<byte>>, counts: seq<nat>)
    requires HasImage(geo, input, height) && tables.Built() && Limits(limit)
    ensures RowsUpTo(geo, input, height, rows, height) && counts == Portions(geo.v, 0, height, 0, rooms)
  {
    hide MergedAt, Portions, Place, Count, ImageRow;
    var up := new MergedUpsampler(geo, height, tables, limit);
    var ctr, done := 0, 0;
    ghost var all := Portions(geo.v, 0, height, 0, rooms);
    rows, counts := [], [];
    assert [] + all == all;
    assert MergedAt(up, input, height, 0, [], 0) by { MergedStart(up, input, height); }
    while done < height
      invariant fresh(up) && fresh(up.spareRow) && done <= height
      invariant MergedAt(up, input, height, ctr, rows, done)
      invariant counts + Portions(geo.v, done, height, |counts|, rooms) == all
    {
      PortionsStep(geo.v, done, height, |counts|, rooms, counts);
      var n;
      ctr, n, rows := StepMerged(up, input, ctr, rooms(|counts|) + 1, rows, height, done);
      counts := counts + [n];
      CountFits(geo.v, Place(geo.v, done).phase, height - done, rooms(|counts| - 1) + 1);
      done := done + n;
    }
    MergedRows(up, input, height, ctr, rows, done);
    NoPortions(geo.v, done, height, |counts|, rooms, counts);
  }

  lemma MergedStart(up: MergedUpsampler, input: Planes, height: nat)
    requires up.Valid() && HasImage(up.geo, input, height) && up.left == height && !up.spareFull
    ensures MergedAt(up, input, height, 0, [], 0)
  {
  }

  lemma MergedRows(up: MergedUpsampler, input: Planes, height: nat, ctr: nat, rows: seq<seq<byte>>, done: nat)
    requires MergedAt(up, input, height, ctr, rows, done)
    ensures RowsUpTo(up.geo, input, height, rows, done)
  {
  }

  // A row of the image is converted from its own luma row and the chroma rows of its group.
  predicate RowFrom(geo: Geometry, input: Planes, r: nat, row: seq<byte>)
    requires geo.v > 0
  {
    && r < |input.y| && r / geo.v < |input.cb| && r / geo.v < |input.cr|
    && RowShown(row, geo.width, input.y[r], input.cb[r / geo.v], input.cr[r / geo.v])
  }

  predicate ImageShown(geo: Geometry, input: Planes, height: nat, rows: seq<seq<byte>>) {
    geo.v > 0 && |rows| == height && forall r :: 0 <= r < height ==> RowFrom(geo, input, r, rows[r])
  }

  lemma AllShown(geo: Geometry, input: Planes, height: nat, rows: seq<seq<byte>>)
    requires RowsUpTo(geo, input, height, rows, height)
    ensures ImageShown(geo, input, height, rows)
  {
    hide RowOf, RowShown;
    forall r | 0 <= r < height ensures RowFrom(geo, input, r, rows[r]) {
      var at := Place(geo.v, r);
      assert HasGroup(geo, input, at.ctr);
      RowOfIsShown(geo, GroupAt(geo, input, at.ctr), at.phase);
      assert geo.v * at.ctr + at.phase == r;
    }
  }

  lemma SameRows(geo: Geometry, input: Planes, height: nat, a: seq<seq<byte>>, b: seq<seq<byte>>)
    requires RowsUpTo(geo, input, height, a, height) && RowsUpTo(geo, input, height, b, height)
    ensures a == b
  {
    hide ImageRow;
  }

  // The theorem: for every width, odd ones included, every height and every sequence of
  // requests.
  method SameEitherWay(geo: Geometry, input: Planes, height: nat, rooms: nat -> nat)
    returns (merged: seq<seq<byte>>, separate: seq<seq<byte>>, portions: seq<nat>)
    requires HasImage(geo, input, height)
    ensures merged == separate && RowsUpTo(geo, input, height, merged, height)
    ensures ImageShown(geo, input, height, merged)
    ensures portions == Portions(geo.v, 0, height, 0, rooms)
  {
    hide ImageRow, RowsUpTo, ImageShown;
    var limit := PrepareRangeLimitTable();
    var tables := new ChromaTables();
    var portions2;
    merged, portions := RunMerged(geo, input, height, rooms, tables, limit);
    separate, portions2 := RunSeparate(geo, input, height, rooms, tables, limit);
    SameRows(geo, input, height, merged, separate);
    AllShown(geo, input, height, merged);
  }
}
