// The preprocessing controller of the compressor with context rows: jcprepct.c. Three
// row groups are stored; pointers make them look like five.
module ContextPrep {
  import opened ImageRows

  // ---- What the downsampler should see ------------------------------------------------------------------------------

  // A row group that begins with row base, with the groups above and below it.
  function Window(image: seq<Row>, v: int, base: int): (w: seq<Row>)
    requires image != [] && v > 0
    ensures |w| == 3 * v && forall i :: 0 <= i < 3 * v ==> w[i] == RowAt(image, base - v + i)
  {
    seq(3 * v, i => RowAt(image, base - v + i))
  }

  // The row groups passed on are those from number g0 on.
  predicate WindowsFrom(image: seq<Row>, v: int, g0: nat, out: seq<seq<Row>>) {
    image != [] && v > 0 && forall g :: 0 <= g < |out| ==> out[g] == Window(image, v, (g0 + g) * v)
  }

  lemma OneMoreWindow(image: seq<Row>, v: int, g0: nat, out: seq<seq<Row>>, w: seq<Row>)
    requires WindowsFrom(image, v, g0, out) && w == Window(image, v, (g0 + |out|) * v)
    ensures WindowsFrom(image, v, g0, out + [w])
  {
    hide Window;
  }

  lemma MoreWindows(image: seq<Row>, v: int, a: seq<seq<Row>>, b: seq<seq<Row>>)
    requires WindowsFrom(image, v, 0, a) && WindowsFrom(image, v, |a|, b)
    ensures WindowsFrom(image, v, 0, a + b)
  {
    hide Window;
  }

  // Each group passed on is seen with v rows above it and v rows below it. Above the image they
  // are its first row, below it its last one.
  predicate TrueWindows(image: seq<Row>, v: int, out: seq<seq<Row>>)
    requires image != []
  {
    forall g :: 0 <= g < |out| ==>
      |out[g]| == 3 * v && forall i :: 0 <= i < 3 * v ==>
        var y := g * v - v + i;
        out[g][i] == image[if y < 0 then 0 else if y < |image| then y else |image| - 1]
  }

  lemma WindowsAreTrue(image: seq<Row>, v: int, out: seq<seq<Row>>)
    requires WindowsFrom(image, v, 0, out)
    ensures TrueWindows(image, v, out)
  {
    hide Window;
    forall g | 0 <= g < |out| ensures out[g] == Window(image, v, g * v) {
      assert out[g] == Window(image, v, (0 + g) * v);
    }
  }

  // Five groups of pointers to the rows of three groups: the first points to the last of
  // them, the last to the first.
  predicate WrapAround(pointers: array<nat>, v: int)
    reads pointers
  {
    && v > 0 && pointers.Length == 5 * v
    && (forall x :: 0 <= x < v ==> pointers[x] == x + 2 * v)
    && (forall x :: v <= x < 4 * v ==> pointers[x] == x - v)
    && (forall x :: 4 * v <= x < 5 * v ==> pointers[x] == x - 4 * v)
  }

  // create_context_buffer
  method CreateContextBuffer(v: int) returns (pointers: array<nat>)
    requires v > 0
    ensures fresh(pointers) && WrapAround(pointers, v)
  {
    pointers := new nat[5 * v](_ => 0);
    for i := 0 to 3 * v
      invariant forall x :: v <= x < v + i ==> pointers[x] == x - v
    {
      pointers[v + i] := i;
    }
    for i := 0 to v
      invariant forall x :: v <= x < 4 * v ==> pointers[x] == x - v
      invariant forall x :: 0 <= x < i ==> pointers[x] == 2 * v + x
      invariant forall x :: 4 * v <= x < 4 * v + i ==> pointers[x] == x - 4 * v
    {
      pointers[i] := 2 * v + i;
      pointers[4 * v + i] := i;
    }
  }

  // ---- How far one gets --------------------------------------------------------------------------------------------

  // Rows taken and row groups passed on.
  datatype Progress = Progress(taken: int, groups: int)

  // As long as more rows are to come, a row group takes the rows of the one below it too.
  function Ready(v: int, rows: int): int
    requires v > 0
  {
    if rows >= v then rows / v - 1 else 0
  }

  // A call that offers so many rows and has room for so many row groups: no more rows are
  // taken than are needed, and at the bottom of the image row groups are made up.
  function Advance(height: int, v: int, p: Progress, rows: int, room: int): Progress
    requires v > 0
  {
    var avail := if p.taken + rows <= height then p.taken + rows else height;
    var g := p.groups + room;
    if room == 0 then p
    else if avail == height || g <= Ready(v, avail)
        then Progress(if (g + 1) * v <= height then (g + 1) * v else height, g)
    else Progress(avail, Ready(v, avail))
  }

  function AdvanceAll(height: int, v: int, pieces: seq<(nat, nat)>): Progress
    requires v > 0
  {
    if pieces == [] then Progress(0, 0)
    else
      var n := |pieces| - 1;
      Advance(height, v, AdvanceAll(height, v, pieces[..n]), pieces[n].0, pieces[n].1)
  }

  lemma ReadyIs(v: int, rows: int, g: int)
    requires v > 0 && g >= 0 && 0 <= rows < (g + 2) * v && (g > 0 ==> (g + 1) * v <= rows)
    ensures Ready(v, rows) == g
  {
    if rows >= v {
      var q := rows / v;
      assert rows == v * q + rows % v;
      if q > g + 1 { Times(v, g + 2, q); } else if q < g + 1 { Times(v, q + 1, g + 1); }
    }
  }

  lemma Times(v: int, a: int, b: int)
    requires v > 0 && a <= b
    ensures a * v <= b * v
  {
  }

  // What a call comes to, put together.
  lemma AdvanceIs(height: int, v: int, p: Progress, rows: int, room: int, q: Progress)
    requires v > 0 && room >= 0 && rows >= 0 && 0 <= p.groups <= q.groups <= p.groups + room
        && 0 <= p.taken <= q.taken <= p.taken + rows <= height
    requires q.groups == p.groups + room || (q.taken == p.taken + rows < height && q.taken < (q.groups + 2) * v)
    requires room == 0 ==> q.taken == p.taken
    requires q.groups == p.groups + room && room > 0 ==>
        q.taken == if (q.groups + 1) * v <= height then (q.groups + 1) * v else height
    requires q.groups > 0 && q.taken < height ==> (q.groups + 1) * v <= q.taken
    ensures q == Advance(height, v, p, rows, room)
  {
    if room > 0 {
      if q.groups < p.groups + room {
        ReadyIs(v, q.taken, q.groups);
      } else if p.taken + rows < height {
        if p.taken + rows >= v {
          var x := (p.taken + rows) / v;
          assert p.taken + rows == v * x + (p.taken + rows) % v;
          if x < q.groups + 1 { Times(v, x + 1, q.groups + 1); }
        }
      }
    }
  }

  // A last call with room for all row groups of the image takes all rows, and every row
  // group there is room for is passed on.
  lemma EnoughRoom(height: int, v: int, p: Progress, rows: int, room: int)
    requires v > 0 && height > 0 && p.groups >= 0 && p.taken + rows >= height && room * v >= height
    ensures Advance(height, v, p, rows, room) == Progress(height, p.groups + room)
    ensures (p.groups + room) * v >= height
  {
    assert room > 0;
    Times(v, room, p.groups + room);
    Times(v, room, p.groups + room + 1);
  }

  class PrepController {
    const v: int                    // cinfo->max_v_samp_factor
    const height: nat               // cinfo->image_height
    const rows: array<Row>          // the three row groups
    const pointers: array<nat>      // the five groups of row pointers
    var rowsToGo: nat
    var nextBufRow: nat
    var thisRowGroup: nat
    var nextBufStop: nat
    ghost var groups: nat           // row groups passed on so far
    ghost var base: nat             // the first row of the next one

    // color_buf points to the second of the five groups of pointers.
    predicate Wraps()
      reads pointers
    {
      && v > 0 && height > 0 && rows.Length == 3 * v && WrapAround(pointers, v)
    }

    // Where color_buf[i] points to.
    function Pointer(i: int): (p: nat)
      reads pointers
      requires Wraps() && -v <= i < 4 * v
      ensures p == if i < 0 then i + 3 * v else if i < 3 * v then i else i - 3 * v
    {
      pointers[v + i]
    }

    // color_buf[i]
    function BufRow(i: int): Row
      reads pointers, rows
      requires Wraps() && -v <= i < 4 * v
    {
      rows[Pointer(i)]
    }

    // Behind the last of the rows of this group and the one below it that are there. In
    // the third group next_buf_row is an alias of it.
    function End(): int
      reads this
    {
      if nextBufRow >= thisRowGroup then nextBufRow else nextBufRow + 3 * v
    }

    ghost predicate Position()
      reads this
    {
      && (thisRowGroup == 0 || thisRowGroup == v || thisRowGroup == 2 * v)
      && nextBufStop == (if thisRowGroup == 2 * v then v else thisRowGroup + 2 * v)
      && nextBufRow <= nextBufStop && (thisRowGroup == v ==> nextBufRow >= 2 * v)
      && (thisRowGroup == 0 && base > 0 ==> nextBufRow >= v)
    }

    ghost predicate AtGroup()
      reads this`base, this`groups
    {
      base == groups * v
    }

    // The rows so far, real or made up, have been stored, the latest three groups of them
    // still there.
    ghost predicate Valid(image: seq<Row>)
      reads this, pointers, rows
    {
      && Wraps() && |image| == height && Position() && AtGroup()
      && (var sofar := base + (End() - thisRowGroup);
          if sofar <= height then rowsToGo == height - sofar else rowsToGo == 0)
      && (rowsToGo == height || Holds(image, thisRowGroup - v, End(), base - thisRowGroup))
    }

    // Rows from..to of the buffer are those of the image that belong there: row x of the
    // buffer is row x + off of the image.
    ghost predicate Holds(image: seq<Row>, from: int, to: int, off: int)
      reads pointers, rows
      requires Wraps() && -v <= from && to <= 4 * v && image != []
    {
      forall x :: from <= x < to ==> BufRow(x) == RowAt(image, x + off)
    }

    constructor (v: int, height: nat)
      requires v > 0 && height > 0
      ensures this.v == v && this.height == height && Wraps() && groups == 0 && rowsToGo == height
          && nextBufRow < nextBufStop && fresh(rows) && fresh(pointers)
      ensures forall image: seq<Row> :: |image| == height ==> Valid(image)
    {
      this.v, this.height := v, height;
      var p := CreateContextBuffer(v);
      pointers := p;
      rows := new Row[3 * v](_ => []);
      // start_pass_prep
      rowsToGo, nextBufRow, thisRowGroup, nextBufStop := height, 0, 0, 2 * v;
      groups, base := 0, 0;
    }

    // A row goes behind those that are there; at is an alias of its place x.
    method PutRow(at: int, row: Row, ghost x: int, ghost from: int, ghost image: seq<Row>)
      requires Wraps() && image != [] && -v <= at < 4 * v && -v <= from <= x < 4 * v && x - from < 3 * v
          && Pointer(at) == Pointer(x)
      requires Holds(image, from, x, base - thisRowGroup) && row == RowAt(image, x + (base - thisRowGroup))
      modifies rows
      ensures Holds(image, from, x + 1, base - thisRowGroup)
    {
      hide RowAt;
      label before:
      rows[Pointer(at)] := row;
      forall y | from <= y < x + 1 ensures BufRow(y) == RowAt(image, y + (base - thisRowGroup)) {
        assert y < x ==> old@before(BufRow(y)) == RowAt(image, y + (base - thisRowGroup));
      }
    }

    // A row goes before those that are there.
    method PutAbove(row: Row, ghost image: seq<Row>, x: int, ghost to: int)
      requires Wraps() && image != [] && -v <= x <= 0 <= to <= 2 * v && Holds(image, x + 1, to, base - thisRowGroup)
          && row == RowAt(image, x + (base - thisRowGroup))
      modifies rows
      ensures Holds(image, x, to, base - thisRowGroup)
    {
      hide RowAt;
      label before:
      rows[Pointer(x)] := row;
      forall y | x <= y < to ensures BufRow(y) == RowAt(image, y + (base - thisRowGroup)) {
        assert y > x ==> old@before(BufRow(y)) == RowAt(image, y + (base - thisRowGroup));
      }
    }

    lemma Aliases(k: int)
      requires Wraps() && Position() && 0 <= k && nextBufRow + k < nextBufStop
      ensures thisRowGroup - v <= End() + k < 4 * v && End() + k - (thisRowGroup - v) < 3 * v
          && Pointer(nextBufRow + k) == Pointer(End() + k)
      ensures nextBufRow + k > 0 || End() + k > 0 ==> Pointer(nextBufRow + k - 1) == Pointer(End() + k - 1)
      ensures End() >= thisRowGroup >= 0
    {
    }

    // color_convert of numrows rows into the buffer.
    method ConvertRows(input: seq<Row>, from: nat, numrows: nat, ghost first: int, ghost image: seq<Row>)
      requires Wraps() && Position() && image != [] && from + numrows <= |input| && nextBufRow + numrows <= nextBufStop
      requires thisRowGroup - v <= first <= End() && Holds(image, first, End(), base - thisRowGroup)
      requires forall j ::
          from <= j < from + numrows ==> input[j] == RowAt(image, End() + (base - thisRowGroup) + (j - from))
      modifies rows
      ensures End() + numrows <= 4 * v && Holds(image, first, End() + numrows, base - thisRowGroup)
    {
      hide RowAt, Wraps, Holds, Pointer, BufRow;
      WrapsMeans();
      for j := 0 to numrows
        modifies rows
        invariant Wraps() && Holds(image, first, End() + j, base - thisRowGroup)
      {
        Aliases(j);
        PutRow(nextBufRow + j, input[from + j], End() + j, first, image);
      }
    }

    // Padding at the top of the image.
    method PadTop(numrows: nat, ghost image: seq<Row>)
      requires Wraps() && thisRowGroup == 0 == base && image != [] && 0 < numrows <= 2 * v
          && Holds(image, 0, numrows, base - thisRowGroup)
      modifies rows
      ensures Holds(image, -v, numrows, base - thisRowGroup)
    {
      hide RowAt, Wraps, Holds, Pointer, BufRow;
      WrapsMeans();
      for row := 1 to v + 1
        modifies rows
        invariant Wraps() && Holds(image, 1 - row, numrows, base - thisRowGroup)
      {
        AboveTheTop(image, row);
        TopHeld(image, 1 - row, numrows);
        PutAbove(rows[Pointer(0)], image, -row, numrows);
      }
    }

    method StoreRows(input: seq<Row>, from: nat, numrows: nat, ghost image: seq<Row>)
      requires Valid(image) && from + numrows <= |input| && nextBufRow + numrows <= nextBufStop && numrows > 0
          && numrows <= rowsToGo
      requires forall j :: from <= j < from + numrows ==> input[j] == RowAt(image, height - rowsToGo + (j - from))
      modifies rows, this`nextBufRow, this`rowsToGo
      ensures Valid(image) && nextBufRow == old(nextBufRow) + numrows && rowsToGo == old(rowsToGo) - numrows
    {
      hide RowAt, Wraps, Holds, Pointer, BufRow, AtGroup;
      WrapsMeans();
      NextRows(image);
      NothingHeld(image, 0);
      ConvertRows(input, from, numrows, if rowsToGo == height then 0 else thisRowGroup - v, image);
      if rowsToGo == height {
        PadTop(numrows, image);
      }
      nextBufRow := nextBufRow + numrows;
      rowsToGo := rowsToGo - numrows;
    }

    lemma WrapsMeans()
      requires Wraps()
      ensures v > 0 && height > 0
    {
    }

    lemma NothingHeld(image: seq<Row>, x: int)
      requires Wraps() && image != [] && -v <= x <= 4 * v
      ensures Holds(image, x, x, base - thisRowGroup)
    {
    }

    lemma TopHeld(image: seq<Row>, from: int, to: int)
      requires Wraps() && image != [] && -v <= from <= 0 < to <= 2 * v && Holds(image, from, to, base - thisRowGroup)
      ensures Pointer(0) < rows.Length && rows[Pointer(0)] == RowAt(image, base - thisRowGroup)
    {
      assert BufRow(0) == RowAt(image, 0 + (base - thisRowGroup));
    }

    lemma AboveTheTop(image: seq<Row>, i: int)
      requires image != [] && i > 0
      ensures RowAt(image, -i) == RowAt(image, 0)
    {
    }

    lemma BelowTheBottom(image: seq<Row>, i: int)
      requires image != [] && i >= |image|
      ensures RowAt(image, i) == RowAt(image, i - 1)
    {
    }

    // expand_bottom_edge: the last row is repeated, also across the wrap.
    method ExpandBottomEdge(ghost image: seq<Row>)
      requires Valid(image) && rowsToGo == 0
      modifies rows, this`nextBufRow
      ensures Valid(image) && nextBufRow == nextBufStop
    {
      hide RowAt, Holds, Wraps, BufRow, Pointer, AtGroup;
      WrapsMeans();
      ghost var end := End();
      for row := nextBufRow to nextBufStop
        modifies rows
        invariant Wraps() && Holds(image, thisRowGroup - v, end + (row - nextBufRow), base - thisRowGroup)
      {
        RepeatRow(row, end + (row - nextBufRow), image);
      }
      nextBufRow := nextBufStop;
    }

    // A row below the image; row is an alias of its place x.
    method RepeatRow(row: int, ghost x: int, ghost image: seq<Row>)
      requires Wraps() && Position() && image != [] && nextBufRow <= row < nextBufStop
          && x == End() + (row - nextBufRow)
      requires x + (base - thisRowGroup) >= |image| && Holds(image, thisRowGroup - v, x, base - thisRowGroup)
      modifies rows
      ensures Holds(image, thisRowGroup - v, x + 1, base - thisRowGroup)
    {
      hide RowAt, Holds, Wraps, BufRow, Pointer;
      WrapsMeans();
      Aliases(row - nextBufRow);
      BelowTheBottom(image, x + (base - thisRowGroup));
      LastHeld(image, thisRowGroup - v, x);
      PutRow(row, rows[Pointer(row - 1)], x, thisRowGroup - v, image);
    }

    lemma LastHeld(image: seq<Row>, from: int, to: int)
      requires Wraps() && image != [] && -v <= from < to <= 4 * v && Holds(image, from, to, base - thisRowGroup)
      ensures Pointer(to - 1) < rows.Length && rows[Pointer(to - 1)] == RowAt(image, to - 1 + (base - thisRowGroup))
    {
      assert BufRow(to - 1) == RowAt(image, to - 1 + (base - thisRowGroup));
    }

    // The rows that downsample() reaches through the pointers from this_row_group on.
    method Seen() returns (w: seq<Row>)
      requires Wraps() && 0 <= thisRowGroup <= 2 * v
      ensures |w| == 3 * v && forall i :: 0 <= i < 3 * v ==> w[i] == BufRow(thisRowGroup - v + i)
    {
      w := [];
      for i := 0 to 3 * v
        invariant |w| == i && forall k :: 0 <= k < i ==> w[k] == BufRow(thisRowGroup - v + k)
      {
        w := w + [rows[Pointer(thisRowGroup - v + i)]];
      }
    }

    // Passing on a row group, and moving the pointers on.
    method Downsample(ghost image: seq<Row>) returns (w: seq<Row>)
      requires Valid(image) && nextBufRow == nextBufStop
      modifies this`thisRowGroup, this`nextBufRow, this`nextBufStop, this`groups, this`base
      ensures Valid(image) && nextBufRow < nextBufStop && w == Window(image, v, old(groups) * v)
          && groups == old(groups) + 1
      ensures End() == thisRowGroup + v
    {
      hide RowAt, Holds;
      w := Seen();
      WindowSeen(image, w);
      NextBase(groups);
      Shifted(image, thisRowGroup, thisRowGroup + 2 * v, base - thisRowGroup);
      thisRowGroup := thisRowGroup + v;
      if thisRowGroup >= 3 * v {
        thisRowGroup := 0;
      }
      if nextBufRow >= 3 * v {
        nextBufRow := 0;
      }
      nextBufStop := nextBufRow + v;
      groups := groups + 1;
      base := base + v;
    }

    // The rows that are still needed, in the place they have for the next group.
    lemma Shifted(image: seq<Row>, from: int, to: int, off: int)
      requires Wraps() && image != [] && 0 <= from <= to <= 4 * v && Holds(image, from - v, to, off)
      ensures Holds(image, from, to, off)
      ensures from >= 2 * v ==> Holds(image, from - 3 * v, to - 3 * v, off + 3 * v)
    {
      hide RowAt;
      if from >= 2 * v {
        forall y | from - 3 * v <= y < to - 3 * v ensures BufRow(y) == RowAt(image, y + (off + 3 * v)) {
          assert BufRow(y + 3 * v) == RowAt(image, y + 3 * v + off) && Pointer(y) == Pointer(y + 3 * v);
        }
      }
    }

    lemma NextBase(g: nat)
      ensures (g + 1) * v == g * v + v
    {
    }

    lemma WindowSeen(image: seq<Row>, w: seq<Row>)
      requires Wraps() && image != [] && 0 <= thisRowGroup <= 2 * v
          && Holds(image, thisRowGroup - v, thisRowGroup + 2 * v, base - thisRowGroup)
      requires |w| == 3 * v && forall i :: 0 <= i < 3 * v ==> w[i] == BufRow(thisRowGroup - v + i)
      ensures w == Window(image, v, base)
    {
      hide RowAt;
    }

    // pre_process_context: takes what rows it can from the caller's buffer and passes on
    // what row groups there is room for.
    method PreProcessContext(input: seq<Row>, inCtr0: nat, inAvail: nat, room: nat, ghost image: seq<Row>)
        returns (inCtr: nat, out: seq<seq<Row>>)
      requires Valid(image) && nextBufRow < nextBufStop && inCtr0 <= inAvail <= |input| && inAvail - inCtr0 <= rowsToGo
      requires forall i :: inCtr0 <= i < inAvail ==> input[i] == image[height - rowsToGo + (i - inCtr0)]
      modifies this`rowsToGo, this`nextBufRow, this`thisRowGroup, this`nextBufStop, this`groups, this`base, rows
      ensures Valid(image) && nextBufRow < nextBufStop && inCtr0 <= inCtr <= inAvail
          && rowsToGo == old(rowsToGo) - (inCtr - inCtr0)
      ensures groups == old(groups) + |out| && |out| <= room
      ensures WindowsFrom(image, v, old(groups), out)
      ensures Progress(height - rowsToGo, groups)
          == Advance(height, v, Progress(height - old(rowsToGo), old(groups)), inAvail - inCtr0, room)
    {
      hide Window, Wraps, WindowsFrom, Holds, RowAt, AtGroup, Advance;
      inCtr, out := inCtr0, [];
      NoWindows(image);
      while |out| < room
        invariant Valid(image) && inCtr0 <= inCtr <= inAvail && rowsToGo == old(rowsToGo) - (inCtr - inCtr0)
        invariant groups == old(groups) + |out| && |out| <= room
        invariant WindowsFrom(image, v, old(groups), out)
        invariant nextBufRow < nextBufStop
        invariant |out| == room && room > 0 ==> End() == thisRowGroup + v
        invariant room == 0 ==> inCtr == inCtr0
        decreases room - |out|, inAvail - inCtr
      {
        if inCtr < inAvail {
          var inrows := inAvail - inCtr;
          var numrows := nextBufStop - nextBufRow;
          numrows := if numrows <= inrows then numrows else inrows;
          RealRows(image, input, inCtr0, inCtr, inAvail, old(rowsToGo));
          StoreRows(input, inCtr, numrows, image);
          inCtr := inCtr + numrows;
        } else {
          if rowsToGo != 0 {
            break;
          }
          if nextBufRow < nextBufStop {
            ExpandBottomEdge(image);
          }
        }
        if nextBufRow == nextBufStop {
          var w := Downsample(image);
          OneMoreWindow(image, v, old(groups), out, w);
          out := out + [w];
        }
      }
      Tally(image);
      AdvanceIs(height, v, Progress(height - old(rowsToGo), old(groups)), inAvail - inCtr0, room,
          Progress(height - rowsToGo, groups));
    }

    // Rows and row groups between calls.
    lemma Tally(image: seq<Row>)
      requires Valid(image) && nextBufRow < nextBufStop
      ensures v > 0 && height > 0 && rowsToGo <= height && (rowsToGo > 0 ==> height - rowsToGo < (groups + 2) * v)
      ensures End() == thisRowGroup + v ==>
          height - rowsToGo == if (groups + 1) * v <= height then (groups + 1) * v else height
      ensures groups > 0 && rowsToGo > 0 ==> (groups + 1) * v <= height - rowsToGo
    {
      assert (groups + 2) * v == groups * v + 2 * v && (groups + 1) * v == groups * v + v;
    }

    lemma NoWindows(image: seq<Row>)
      requires Valid(image)
      ensures image != [] && v > 0 && WindowsFrom(image, v, groups, [])
    {
    }

    lemma RealRows(image: seq<Row>, input: seq<Row>, from0: nat, from: nat, to: nat, toGo0: nat)
      requires |image| == height && from0 <= from <= to <= |input| && to - from0 <= toGo0 <= height
      requires forall i :: from0 <= i < to ==> input[i] == image[height - toGo0 + (i - from0)]
      ensures image != [] || from == to
      ensures forall j :: from <= j < to ==> input[j] == RowAt(image, height - (toGo0 - (from - from0)) + (j - from))
    {
    }

    lemma NextRows(image: seq<Row>)
      requires Valid(image) && rowsToGo > 0
      ensures base + (End() - thisRowGroup) == height - rowsToGo
    {
    }
  }

  lemma NoWindowsYet(image: seq<Row>, v: int)
    requires image != [] && v > 0
    ensures WindowsFrom(image, v, 0, [])
  {
  }

  // An image that is handed over in any pieces, with any amounts of room for row groups:
  // the downsampler sees every row group between its true neighbours, or the edge rows
  // repeated, although only three groups are stored.
  method PrepareImage(image: seq<Row>, v: int, pieces: seq<(nat, nat)>) returns (groups: seq<seq<Row>>, taken: nat)
    requires v > 0 && image != []
    ensures WindowsFrom(image, v, 0, groups) && taken <= |image|
    ensures Progress(taken, |groups|) == AdvanceAll(|image|, v, pieces)
    ensures TrueWindows(image, v, groups)
  {
    hide WindowsFrom, Window, RowAt, PrepController.Valid, TrueWindows;
    var prep := new PrepController(v, |image|);
    groups, taken := [], 0;
    NoWindowsYet(image, v);
    for i := 0 to |pieces|
      invariant prep.v == v && prep.height == |image| && prep.Valid(image) && prep.nextBufRow < prep.nextBufStop
          && fresh(prep) && fresh(prep.rows)
      invariant taken <= |image| && prep.rowsToGo == |image| - taken && prep.groups == |groups|
      invariant WindowsFrom(image, v, 0, groups) && Progress(taken, |groups|) == AdvanceAll(|image|, v, pieces[..i])
    {
      assert pieces[..i + 1][..i] == pieces[..i];
      var (rows, room) := pieces[i];
      var end := if taken + rows <= |image| then taken + rows else |image|;
      var more;
      taken, more := prep.PreProcessContext(image, taken, end, room, image);
      MoreWindows(image, v, groups, more);
      groups := groups + more;
    }
    assert pieces[..|pieces|] == pieces;
    WindowsAreTrue(image, v, groups);
  }
}
