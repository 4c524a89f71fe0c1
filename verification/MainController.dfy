// The decompressor's main controller with context rows: jdmainct.c. Two lists of row
// pointers are used in turn, so that the last two row groups of an iMCU row stay where
// they are while the next is read.
module MainController {
  import opened Division
  import opened ImageRows
  import opened FunnyPointers

  datatype ContextState = PrepareForImcu | ProcessImcu | PostponedRow

  lemma AtLeastTwo(m: int, r: int)
    requires m >= 2 && r > 0
    ensures m * r >= 2 * r
  {
  }

  method CopyPointers(x: array<nat>, n: int, r: int)
    requires Sizes(n, r) && x.Length == ListLength(n, r)
    modifies x
    ensures Straight(x[..], n, r)
  {
    for i := 0 to n + 2 * r
      invariant forall k :: r <= k < r + i ==> x[k] == k - r
    {
      x[r + i] := i;
    }
  }

  method SwapPointers(x: array<nat>, n: int, r: int)
    requires Sizes(n, r) && x.Length == ListLength(n, r) && Straight(x[..], n, r)
    modifies x
    ensures Swapped(x[..], n, r)
  {
    assert forall k :: r <= k < n + 3 * r ==> x[..][k] == k - r;
    for i := 0 to 2 * r
      invariant forall k :: r <= k < n - r ==> x[k] == k - r
      invariant forall k :: n - r <= k < n - r + i ==> x[k] == k + r
      invariant forall k :: n + r <= k < n + r + i ==> x[k] == k - 3 * r
    {
      x[r + (n - 2 * r) + i] := n + i;
      x[r + n + i] := n - 2 * r + i;
    }
  }

  // make_funny_pointers
  method MakeFunnyPointers(x0: array<nat>, x1: array<nat>, n: int, r: int)
    requires Sizes(n, r) && x0.Length == x1.Length == ListLength(n, r) && x0 != x1
    modifies x0, x1
    ensures Straight(x0[..], n, r) && Swapped(x1[..], n, r) && TopAbove(x0[..], n, r)
  {
    CopyPointers(x0, n, r);
    CopyPointers(x1, n, r);
    SwapPointers(x1, n, r);
    assert forall k :: r <= k < n + 3 * r ==> x0[..][k] == k - r;
    for i := 0 to r
      modifies x0
      invariant forall k :: r <= k < n + 3 * r ==> x0[k] == k - r
      invariant forall k :: 0 <= k < i ==> x0[k] == x0[r]
    {
      x0[i] := x0[r];
    }
  }

  method WrapPointers(x: array<nat>, n: int, r: int)
    requires Sizes(n, r) && x.Length == ListLength(n, r)
    modifies x
    ensures Wrapped(x[..], n, r) && x[r..n + 3 * r] == old(x[r..n + 3 * r])
  {
    for i := 0 to r
      invariant forall k :: r <= k < n + 3 * r ==> x[k] == old(x[k])
      invariant forall k :: 0 <= k < i ==> x[k] == x[k + n + 2 * r]
      invariant forall k :: n + 3 * r <= k < n + 3 * r + i ==> x[k] == x[k - n - 2 * r]
    {
      x[i] := x[r + n + r + i];
      x[r + n + 2 * r + i] := x[r + i];
    }
  }

  // set_wraparound_pointers
  method SetWraparoundPointers(x0: array<nat>, x1: array<nat>, n: int, r: int)
    requires Sizes(n, r) && x0.Length == x1.Length == ListLength(n, r) && x0 != x1
    modifies x0, x1
    ensures Wrapped(x0[..], n, r) && Wrapped(x1[..], n, r)
    ensures x0[r..n + 3 * r] == old(x0[r..n + 3 * r]) && x1[r..n + 3 * r] == old(x1[r..n + 3 * r])
  {
    WrapPointers(x0, n, r);
    WrapPointers(x1, n, r);
  }

  // set_bottom_pointers: the last real row is repeated.
  method SetBottomPointers(x: array<nat>, left: int, n: int, r: int)
    requires Sizes(n, r) && x.Length == ListLength(n, r) && 0 < left <= n
    modifies x
    ensures forall i ::
        0 <= i < x.Length ==> x[i] == if r + left <= i < 3 * r + left then old(x[r + left - 1]) else old(x[i])
  {
    for i := 0 to 2 * r
      invariant forall k ::
          0 <= k < x.Length ==> x[k] == if r + left <= k < r + left + i then old(x[r + left - 1]) else old(x[k])
    {
      x[r + left + i] := x[r + left - 1];
    }
  }

  // decompress_data: an iMCU row goes to the rows that the first n entries point to.
  method ReadImcuRow(rows: array<Row>, x: array<nat>, n: int, r: int, source: seq<Row>, off: int)
    requires Sizes(n, r) && x.Length == ListLength(n, r) && rows.Length == n + 2 * r
        && (Straight(x[..], n, r) || Swapped(x[..], n, r))
    requires 0 <= off && off + n <= |source|
    modifies rows
    ensures Shows(rows[..], x[..], r, 0, n, source, off)
    ensures forall y :: 0 <= y < rows.Length && (forall i :: r <= i < r + n ==> x[i] != y) ==> rows[y] == old(rows[y])
  {
    forall i | r <= i < r + n ensures x[..][i] < rows.Length { Apart(x[..], n, r, i, n + 3 * r - 1); }
    for i := 0 to n
      invariant forall k :: r <= k < r + i ==> x[k] < rows.Length && rows[x[k]] == source[k - r + off]
      invariant forall y ::
          0 <= y < rows.Length && (forall k :: r <= k < r + i ==> x[k] != y) ==> rows[y] == old(rows[y])
    {
      forall k | r <= k < r + i ensures x[k] != x[r + i] { Apart(x[..], n, r, k, r + i); }
      assert x[..][r + i] < rows.Length;
      rows[x[r + i]] := source[i + off];
    }
  }

  class Controller {
    const r: int                     // rows in a row group
    const m: int                     // row groups in an iMCU row: cinfo->min_DCT_v_scaled_size
    const n: int                     // rows in an iMCU row
    const height: int                // cinfo->downsampled_height of the component
    const total: int                 // cinfo->total_iMCU_rows
    const source: seq<Row>           // what the coefficient controller will deliver
    const rows: array<Row>           // the workspace
    const x0: array<nat>             // xbuffer[0]
    const x1: array<nat>             // xbuffer[1]
    var bufferFull: bool
    var rowgroupCtr: nat
    var whichptr: nat
    var contextState: ContextState
    var rowgroupsAvail: nat
    var imcuRowCtr: nat
    ghost var passed: nat            // row groups passed to the postprocessor
    ghost var current: int           // the first row of the iMCU row read last

    predicate Static() {
      && Sizes(n, r) && m >= 2 && n == m * r && |source| == RowsBefore(total + 1) && total > 0
      && RowsBefore(total) < height <= RowsBefore(total + 1) && rows.Length == n + 2 * r
      && x0.Length == x1.Length == ListLength(n, r)
      && x0 != x1
    }

    function Image(): (s: Source)
      requires Static()
      ensures GoodSource(s)
    {
      Source(source, height, GroupsBefore(total))
    }

    // Rows and row groups in the iMCU rows before the t-th.
    function RowsBefore(t: int): int { (t - 1) * n }

    function GroupsBefore(t: int): int { (t - 1) * m }

    // The list in use.
    function List(): array<nat> reads this`whichptr { if whichptr == 0 then x0 else x1 }

    ghost predicate Pair()
      reads this`whichptr, x0, x1
      requires Static()
    {
      whichptr <= 1 && Straight(x0[..], n, r) && Swapped(x1[..], n, r)
    }

    ghost predicate BothWrapped()
      reads x0, x1
      requires Static()
    {
      Wrapped(x0[..], n, r) && Wrapped(x1[..], n, r)
    }

    // The last row group of the iMCU row before, or the first row at the top of the image.
    ghost predicate AboveShown()
      reads this`current, this`whichptr, rows, x0, x1
      requires Static()
    {
      if current == 0 then TopAbove(List()[..], n, r) else Shows(rows[..], List()[..], r, -r, 0, source, current)
    }

    // An iMCU row has been read and nothing of it passed on.
    ghost predicate Fresh()
      reads this`imcuRowCtr, this`current, this`whichptr, rows, x0, x1
      requires Static()
    {
      && 1 <= imcuRowCtr <= total && current == RowsBefore(imcuRowCtr) && Pair() && (imcuRowCtr == 1 ==> whichptr == 0)
      && Shows(rows[..], List()[..], r, 0, n, source, current) && AboveShown() && (imcuRowCtr > 1 ==> BothWrapped())
    }

    // The two last row groups read are where the other list has them.
    ghost predicate LastTwo(off: int)
      reads this`whichptr, rows, x0, x1
      requires Static()
    {
      Shows(rows[..], List()[..], r, n, n + 2 * r, source, off)
    }

    // CTX_PREPARE_FOR_IMCU: at the start, or with an iMCU row of which nothing has been passed on.
    ghost predicate AtPrepare()
      reads this, rows, x0, x1
      requires Static()
    {
      if bufferFull then Fresh() && passed == GroupsBefore(imcuRowCtr)
      else imcuRowCtr == 0 && passed == 0 && whichptr == 0 && Pair() && TopAbove(x0[..], n, r)
    }

    // CTX_PROCESS_IMCU: all row groups but the last are passed on; at the bottom of the image
    // all there are.
    ghost predicate AtProcess()
      reads this, rows, x0, x1
      requires Static()
    {
      && bufferFull && 1 <= imcuRowCtr <= total && current == RowsBefore(imcuRowCtr) && whichptr <= 1
      && passed == GroupsBefore(imcuRowCtr) + rowgroupCtr && rowgroupCtr < rowgroupsAvail
      && rowgroupsAvail == (if imcuRowCtr == total then Groups() - GroupsBefore(total) else m - 1)
      && ShowsImage(rows[..], List()[..], r, -r, rowgroupsAvail * r + r, Image(), GroupsBefore(imcuRowCtr), current)
      && (imcuRowCtr < total ==> Fresh())
    }

    // CTX_POSTPONED_ROW: the last row group waits for the next iMCU row.
    ghost predicate AtPostponed()
      reads this, rows, x0, x1
      requires Static()
    {
      if imcuRowCtr == total && !bufferFull then passed == Groups()
      else
        && imcuRowCtr >= 1 && Pair() && BothWrapped() && rowgroupCtr == m + 1 && rowgroupsAvail == m + 2
        && if bufferFull then
             Fresh() && imcuRowCtr > 1 && passed == GroupsBefore(imcuRowCtr) - 1 && LastTwo(current - n - 2 * r)
           else
             imcuRowCtr < total && current == RowsBefore(imcuRowCtr) && passed == GroupsBefore(imcuRowCtr + 1) - 1
             && LastTwo(current - 2 * r)
    }

    ghost predicate Valid()
      reads this, rows, x0, x1
    {
      && Static()
      && match contextState
         case PrepareForImcu => AtPrepare()
         case ProcessImcu => AtProcess()
         case PostponedRow => AtPostponed()
    }

    // All row groups that are not dummies.
    function Groups(): int
      requires r > 0
    {
      (height - 1) / r + 1
    }

    constructor (r: int, m: int, height: int, total: int, source: seq<Row>)
      requires r > 0 && m >= 2 && |source| == total * (m * r) && total > 0
          && (total - 1) * (m * r) < height <= total * (m * r)
      ensures Static() && this.r == r && this.m == m && this.height == height && this.total == total
          && this.source == source
      ensures fresh(rows) && fresh(x0) && fresh(x1)
      ensures !bufferFull && contextState == PrepareForImcu && passed == 0 && imcuRowCtr == 0 && whichptr == 0
      ensures Straight(x0[..], n, r) && Swapped(x1[..], n, r) && TopAbove(x0[..], n, r) && Valid()
    {
      AtLeastTwo(m, r);
      var n := m * r;
      this.r, this.m, this.n, this.height, this.total, this.source := r, m, n, height, total, source;
      rows := new Row[n + 2 * r](_ => []);
      var a := new nat[n + 4 * r](_ => 0);
      var b := new nat[n + 4 * r](_ => 0);
      x0, x1 := a, b;
      // start_pass_main
      bufferFull, rowgroupCtr, whichptr, contextState, rowgroupsAvail, imcuRowCtr := false, 0, 0, PrepareForImcu, 0, 0;
      passed, current := 0, 0;
      new;
      MakeFunnyPointers(x0, x1, n, r);
    }

    // One iMCU row further.
    lemma Steps(t: int, k: int)
      requires Static()
      ensures RowsBefore(t + 1) == RowsBefore(t) + n && GroupsBefore(t + 1) == GroupsBefore(t) + m
      ensures RowsBefore(t) + k * r == (GroupsBefore(t) + k) * r
    {
      assert (t - 1) * (m * r) == ((t - 1) * m) * r;
    }

    lemma Between(t: int)
      requires Static() && 1 <= t <= total
      ensures 0 <= RowsBefore(t) && RowsBefore(t) + n <= |source| && GroupsBefore(t) >= 0
      ensures t < total ==> RowsBefore(t) + n <= RowsBefore(total) && GroupsBefore(t) + m <= GroupsBefore(total)
      ensures RowsBefore(t) == 0 <==> t == 1
      ensures t == 1 ==> GroupsBefore(t) == 0
    {
      Steps(t, 0);
      Product(t, total, n);
      Product(0, t - 1, n);
      Product(0, t - 1, m);
      if t < total { Product(t, total - 1, m); Product(t, total - 1, n); }
      if t > 1 { Product(1, t - 1, n); }
    }

    // The number of real row groups in the last iMCU row.
    lemma LastGroups()
      requires Static()
      ensures var left, avail := height - RowsBefore(total), Groups() - GroupsBefore(total);
              0 < left <= n && 1 <= avail <= m && (avail - 1) * r < left <= avail * r && avail == (left - 1) / r + 1
              && height % n == (if left == n then 0 else left)
    {
      hide RowsBefore;
      Steps(total, 0);
      var left := height - RowsBefore(total);
      GroupsLeft(left);
      LastLeft(left);
      GroupBounds(left - 1, r, m);
    }

    lemma GroupsLeft(left: int)
      requires Static() && left == height - RowsBefore(total)
      ensures Groups() - GroupsBefore(total) == (left - 1) / r + 1
    {
      assert RowsBefore(total) == r * GroupsBefore(total) by { Steps(total, 0); }
      AddMultiple(left - 1, r, GroupsBefore(total));
      SameRemainder(left - 1, r, GroupsBefore(total));
    }

    lemma LastLeft(left: int)
      requires Static() && left == height - RowsBefore(total) && 0 < left <= n
      ensures height % n == (if left == n then 0 else left)
    {
      assert height == n * (total - 1) + left;
      if left == n { DivIs(height, n, total, 0); } else { DivIs(height, n, total - 1, left); }
    }

    // decompress_data, with the bookkeeping: the first iMCU row.
    method ReadFirst()
      requires Valid() && !bufferFull && contextState == PrepareForImcu
      modifies this`bufferFull, this`imcuRowCtr, this`current, rows
      ensures Valid() && bufferFull && contextState == PrepareForImcu
    {
      hide Straight, Swapped, TopAbove, Wrapped, Shows, RowsBefore, GroupsBefore;
      Between(1);
      ReadImcuRow(rows, List(), n, r, source, 0);
      bufferFull := true;
      imcuRowCtr := 1;
      current := 0;
    }

    // Another one: what the last two row groups need is not touched.
    method ReadNext()
      requires Valid() && !bufferFull && contextState == PostponedRow && imcuRowCtr < total
      modifies this`bufferFull, this`imcuRowCtr, this`current, rows
      ensures Valid() && bufferFull && contextState == PostponedRow
    {
      hide Straight, Swapped, TopAbove, Wrapped, Shows, RowsBefore, GroupsBefore;
      Steps(imcuRowCtr, 0);
      Between(imcuRowCtr + 1);
      ghost var before, p := rows[..], List()[..];
      ReadImcuRow(rows, List(), n, r, source, NextRow());
      StillShown(before, rows[..], p, n, r, source, current - 2 * r);
      AboveLastTwo(p, current - 2 * r);
      bufferFull := true;
      imcuRowCtr := imcuRowCtr + 1;
      current := current + n;
    }

    // Where the coefficient controller has got to.
    function NextRow(): int reads this { RowsBefore(imcuRowCtr + 1) }

    lemma AboveLastTwo(p: seq<nat>, off: int)
      requires Static() && Wrapped(p, n, r) && Shows(rows[..], p, r, n, n + 2 * r, source, off)
      ensures Shows(rows[..], p, r, -r, 0, source, off + n + 2 * r)
    {
      ShowsPart(rows[..], p, r, n, n + 2 * r, n + r, n + 2 * r, source, off);
      AroundShown(rows[..], p, n, r, source, off);
    }

    // ---- Passing row groups on -------------------------------------------------------------------------------------

    // The rows that the upsampler reaches for a row group and its context.
    method Seen(x: array<nat>, at: int) returns (w: seq<Row>)
      requires Static() && 0 <= at && at + 3 * r <= x.Length && forall i :: at <= i < at + 3 * r ==> x[i] < rows.Length
      ensures |w| == 3 * r && forall k :: 0 <= k < 3 * r ==> w[k] == rows[x[at + k]]
    {
      w := [];
      for k := 0 to 3 * r
        invariant |w| == k && forall j :: 0 <= j < k ==> w[j] == rows[x[at + j]]
      {
        w := w + [rows[x[at + k]]];
      }
    }

    // post_process_data: takes the row groups that it has room for.
    method PostProcess(room: nat, ghost g: int, ghost off: int) returns (out: seq<seq<Row>>)
      requires Static() && whichptr <= 1 && rowgroupCtr <= rowgroupsAvail && off + rowgroupCtr * r == passed * r
      requires ShowsImage(rows[..], List()[..], r, rowgroupCtr * r - r, rowgroupsAvail * r + r, Image(), g, off)
      requires SameSide(Image(), g, passed, passed + (rowgroupsAvail - rowgroupCtr))
      modifies this`rowgroupCtr, this`passed
      ensures |out| == (if room < rowgroupsAvail - old(rowgroupCtr) then room else rowgroupsAvail - old(rowgroupCtr))
      ensures rowgroupCtr == old(rowgroupCtr) + |out| && passed == old(passed) + |out|
      ensures WindowsFrom(Image(), r, old(passed), out)
    {
      hide RowsBefore, GroupsBefore, Window, ShowsImage, WindowsFrom;
      out := [];
      ghost var lo := rowgroupCtr * r - r;
      NoWindows();
      while rowgroupCtr < rowgroupsAvail && |out| < room
        invariant lo <= rowgroupCtr * r - r
        invariant rowgroupCtr == old(rowgroupCtr) + |out| && passed == old(passed) + |out|
            && rowgroupCtr <= rowgroupsAvail && |out| <= room
        invariant off + rowgroupCtr * r == passed * r && WindowsFrom(Image(), r, old(passed), out)
      {
        var w := PassOne(g, lo, off);
        OneMoreWindow(Image(), r, old(passed), out, w);
        out := out + [w];
      }
    }

    lemma NoWindows()
      requires Static()
      ensures WindowsFrom(Image(), r, passed, [])
    {
    }

    method PassOne(ghost g: int, ghost lo: int, ghost off: int) returns (w: seq<Row>)
      requires Static() && whichptr <= 1 && rowgroupCtr < rowgroupsAvail && off + rowgroupCtr * r == passed * r
          && lo <= rowgroupCtr * r - r
      requires ShowsImage(rows[..], List()[..], r, lo, rowgroupsAvail * r + r, Image(), g, off)
          && SameSide(Image(), g, passed, passed + 1)
      modifies this`rowgroupCtr, this`passed
      ensures rowgroupCtr == old(rowgroupCtr) + 1 && passed == old(passed) + 1
          && w == Window(Image(), r, old(passed), old(passed) * r)
      ensures off + rowgroupCtr * r == passed * r && lo <= rowgroupCtr * r - r
    {
      hide RowsBefore, GroupsBefore, Window, ShowsImage;
      GroupShown(g, lo, off);
      w := Seen(List(), rowgroupCtr * r);
      GroupIs(w, g, off);
      Product(rowgroupCtr, rowgroupCtr + 1, r);
      Product(passed, passed + 1, r);
      rowgroupCtr := rowgroupCtr + 1;
      passed := passed + 1;
    }

    // One of the groups that are there.
    lemma GroupShown(g: int, lo: int, off: int)
      requires Static() && whichptr <= 1 && rowgroupCtr < rowgroupsAvail
      requires lo <= rowgroupCtr * r - r
          && ShowsImage(rows[..], List()[..], r, lo, rowgroupsAvail * r + r, Image(), g, off)
      ensures 0 <= rowgroupCtr * r && rowgroupCtr * r + 3 * r <= List().Length
      ensures ShowsImage(rows[..], List()[..], r, rowgroupCtr * r - r, rowgroupCtr * r + 2 * r, Image(), g, off)
      ensures forall i :: rowgroupCtr * r <= i < rowgroupCtr * r + 3 * r ==> List()[i] < rows.Length
    {
      Product(rowgroupCtr + 1, rowgroupsAvail, r);
      Product(0, rowgroupCtr, r);
    }

    lemma GroupIs(w: seq<Row>, g: int, off: int)
      requires Static() && whichptr <= 1 && |w| == 3 * r && off + rowgroupCtr * r == passed * r
          && SameSide(Image(), g, passed, passed + 1)
      requires ShowsImage(rows[..], List()[..], r, rowgroupCtr * r - r, rowgroupCtr * r + 2 * r, Image(), g, off)
      requires 0 <= rowgroupCtr * r && rowgroupCtr * r + 3 * r <= List().Length
      requires forall k ::
          0 <= k < 3 * r ==> List()[rowgroupCtr * r + k] < rows.Length && w[k] == rows[List()[rowgroupCtr * r + k]]
      ensures w == Window(Image(), r, passed, passed * r)
    {
      var at := rowgroupCtr * r;
      forall k | 0 <= k < 3 * r ensures w[k] == Shown(Image(), passed, passed * r - r + k) {
        assert List()[..][at + k] < rows.Length && rows[..][List()[..][at + k]] == Shown(Image(), g, at + k - r + off);
      }
    }

    // The bottom of the image: the list is changed, and dummy row groups are not counted.
    method SetBottom()
      requires Static() && Fresh() && imcuRowCtr == total && rowgroupCtr == 0
      modifies this`rowgroupsAvail, x0, x1
      ensures whichptr <= 1 && rowgroupsAvail == Groups() - GroupsBefore(total) > 0
      ensures ShowsImage(rows[..], List()[..], r, -r, rowgroupsAvail * r + r, Image(), GroupsBefore(total), current)
    {
      hide Straight, Swapped, TopAbove, Wrapped, Shows, RowsBefore, GroupsBefore, Groups, Shown;
      LastGroups();
      Between(total);
      var left := height % n;
      if left == 0 {
        left := n;
      }
      rowgroupsAvail := (left - 1) / r + 1;
      ghost var p := List()[..];
      SetBottomPointers(List(), left, n, r);
      BottomShown(rows[..], p, List()[..], n, r, left, Image(), GroupsBefore(total), current);
      ImagePart(rows[..], List()[..], r, -r, left + 2 * r, -r, rowgroupsAvail * r + r, Image(), GroupsBefore(total),
          GroupsBefore(total), current);
    }

    // The case CTX_PREPARE_FOR_IMCU of process_data_context_main.
    method Prepare()
      requires Static() && AtPrepare() && bufferFull
      modifies this`rowgroupCtr, this`rowgroupsAvail, this`contextState, x0, x1
      ensures Static() && AtProcess() && contextState == ProcessImcu && rowgroupCtr == 0
    {
      hide Straight, Swapped, TopAbove, Wrapped, Shows, RowsBefore, GroupsBefore, Groups, Shown, ShowsImage, AboveShown;
      rowgroupCtr := 0;
      rowgroupsAvail := m - 1;
      if imcuRowCtr == total {
        SetBottom();
      } else {
        InnerImage();
      }
      contextState := ProcessImcu;
    }

    lemma InnerImage()
      requires Static() && Fresh() && imcuRowCtr < total
      ensures ShowsImage(rows[..], List()[..], r, -r, (m - 1) * r + r, Image(), GroupsBefore(imcuRowCtr), current)
    {
      hide Straight, Swapped, TopAbove, Wrapped, Shows, RowsBefore, GroupsBefore, Shown, ShowsImage;
      Between(imcuRowCtr);
      InnerShown(rows[..], List()[..], n, r, Image(), GroupsBefore(imcuRowCtr), current);
      Product(m - 1, m, r);
    }

    // After the row groups of an iMCU row but the last: on to the other list.
    method SwitchOver()
      requires Static() && bufferFull && 1 <= imcuRowCtr <= total && whichptr <= 1
      requires if imcuRowCtr == total then passed == Groups() else Fresh() && passed == GroupsBefore(imcuRowCtr) + m - 1
      modifies this`whichptr, this`bufferFull, this`rowgroupCtr, this`rowgroupsAvail, this`contextState, x0, x1
      ensures Static() && AtPostponed() && !bufferFull && contextState == PostponedRow
    {
      hide Straight, Swapped, TopAbove, Wrapped, Shows, RowsBefore, GroupsBefore, Groups, Shown, ShowsImage, AboveShown;
      Steps(imcuRowCtr, 0);
      if imcuRowCtr < total { LastTwoSwitched(); }
      if imcuRowCtr == 1 {
        Wraparound(current - 2 * r);
      }
      whichptr := 1 - whichptr;
      bufferFull := false;
      rowgroupCtr := m + 1;
      rowgroupsAvail := m + 2;
      contextState := PostponedRow;
    }

    // After the first iMCU row.
    method Wraparound(ghost off: int)
      requires Static() && whichptr <= 1
      modifies x0, x1
      ensures BothWrapped() && (old(Pair()) ==> Pair())
      ensures old(OtherShows(off)) ==> OtherShows(off)
    {
      hide Straight, Swapped, Wrapped, Shows;
      ghost var p0, p1 := x0[..], x1[..];
      SetWraparoundPointers(x0, x1, n, r);
      WrappedPair(p0, p1);
      if old(OtherShows(off)) {
        ShowsSame(rows[..], if whichptr == 0 then p1 else p0, if whichptr == 0 then x1[..] else x0[..],
                  r, n, n + 2 * r, source, off);
      }
    }

    // The other list has the last two row groups.
    ghost predicate OtherShows(off: int)
      reads this`whichptr, rows, x0, x1
      requires Static()
    {
      Shows(rows[..], if whichptr == 0 then x1[..] else x0[..], r, n, n + 2 * r, source, off)
    }

    lemma WrappedPair(p0: seq<nat>, p1: seq<nat>)
      requires Static() && |p0| == x0.Length && |p1| == x1.Length
      requires x0[r..n + 3 * r] == p0[r..n + 3 * r] && x1[r..n + 3 * r] == p1[r..n + 3 * r]
      ensures Straight(p0, n, r) ==> Straight(x0[..], n, r)
      ensures Swapped(p1, n, r) ==> Swapped(x1[..], n, r)
      ensures forall x :: r <= x < n + 3 * r ==> x0[x] == p0[x] && x1[x] == p1[x]
    {
      forall x | r <= x < n + 3 * r ensures x0[x] == p0[x] && x1[x] == p1[x] {
        assert x0[r..n + 3 * r][x - r] == x0[x] && x1[r..n + 3 * r][x - r] == x1[x];
        assert p0[r..n + 3 * r][x - r] == p0[x] && p1[r..n + 3 * r][x - r] == p1[x];
      }
    }

    lemma LastTwoSwitched()
      requires Static() && Pair() && Shows(rows[..], List()[..], r, 0, n, source, current)
      ensures OtherShows(current - 2 * r)
    {
      hide Straight, Swapped, Shows;
      var p, q := List()[..], if whichptr == 0 then x1[..] else x0[..];
      ShowsPart(rows[..], p, r, 0, n, n - 2 * r, n, source, current);
      SwitchLists(rows[..], p, q, n, r, source, current);
    }

    // ---- process_data_context_main ---------------------------------------------------------------------------------

    // The case CTX_POSTPONED_ROW: the last row group of the iMCU row before.
    method FeedPostponed(room: nat) returns (out: seq<seq<Row>>)
      requires Static() && AtPostponed() && bufferFull && contextState == PostponedRow
      modifies this`rowgroupCtr, this`passed, this`contextState
      ensures Valid() && bufferFull && passed == old(passed) + |out| && |out| == (if room == 0 then 0 else 1)
      ensures contextState == if room == 0 then PostponedRow else PrepareForImcu
      ensures WindowsFrom(Image(), r, old(passed), out)
    {
      hide Straight, Swapped, TopAbove, Wrapped, Shows, RowsBefore, GroupsBefore, Groups, Shown, ShowsImage, AboveShown,
          WindowsFrom, Window;
      PostponedReady();
      out := PostProcess(room, passed, current - n - 2 * r);
      if rowgroupCtr >= rowgroupsAvail {
        contextState := PrepareForImcu;
      }
    }

    lemma PostponedReady()
      requires Static() && AtPostponed() && bufferFull
      ensures current - n - 2 * r + rowgroupCtr * r == passed * r && SameSide(Image(), passed, passed, passed + 1)
      ensures ShowsImage(rows[..], List()[..], r, rowgroupCtr * r - r, rowgroupsAvail * r + r, Image(), passed,
          current - n - 2 * r)
      ensures whichptr <= 1
    {
      hide Straight, Swapped, TopAbove, Wrapped, RowsBefore, GroupsBefore, Shown, Shows, ShowsImage, AboveShown;
      PostponedNumbers();
      BelowLastTwo(List()[..], current - n - 2 * r);
      PostponedShown(rows[..], List()[..], n, r, Image(), passed, current - n - 2 * r);
    }

    lemma PostponedNumbers()
      requires Static() && AtPostponed() && bufferFull
      ensures rowgroupCtr * r == n + r && rowgroupsAvail * r == n + 2 * r
      ensures current - r == passed * r && passed < GroupsBefore(total)
    {
      hide Straight, Swapped, TopAbove, Wrapped, RowsBefore, GroupsBefore, Shows, AboveShown;
      Between(imcuRowCtr - 1);
      Steps(imcuRowCtr - 1, 0);
      Steps(imcuRowCtr, -1);
      assert (m + 1) * r == m * r + r && (m + 2) * r == m * r + 2 * r;
    }

    lemma BelowLastTwo(p: seq<nat>, off: int)
      requires Static() && Wrapped(p, n, r) && Shows(rows[..], p, r, n, n + 2 * r, source, off)
          && Shows(rows[..], p, r, 0, n, source, off + n + 2 * r)
      ensures Shows(rows[..], p, r, n, n + 3 * r, source, off)
    {
      hide Wrapped;
      ShowsPart(rows[..], p, r, 0, n, 0, r, source, off + n + 2 * r);
      AroundShown(rows[..], p, n, r, source, off + n + 2 * r);
    }

    // The case CTX_PROCESS_IMCU.
    method FeedImcu(room: nat) returns (out: seq<seq<Row>>)
      requires Static() && AtProcess() && contextState == ProcessImcu
      modifies this`rowgroupCtr, this`passed, this`contextState, this`whichptr, this`bufferFull, this`rowgroupsAvail,
          x0, x1
      ensures Valid() && passed == old(passed) + |out| && |out| <= room && (room > 0 ==> |out| > 0)
      ensures |out| == room || !bufferFull
      ensures WindowsFrom(Image(), r, old(passed), out)
    {
      hide Straight, Swapped, TopAbove, Wrapped, Shows, RowsBefore, GroupsBefore, Groups, Shown, ShowsImage, AboveShown,
          WindowsFrom, Window;
      ProcessReady();
      out := PostProcess(room, GroupsBefore(imcuRowCtr), current);
      if rowgroupCtr >= rowgroupsAvail {
        SwitchOver();
      }
    }

    lemma ProcessReady()
      requires Static() && AtProcess()
      ensures current + rowgroupCtr * r == passed * r && rowgroupCtr * r >= 0
      ensures SameSide(Image(), GroupsBefore(imcuRowCtr), passed, passed + (rowgroupsAvail - rowgroupCtr))
      ensures ShowsImage(rows[..], List()[..], r, rowgroupCtr * r - r, rowgroupsAvail * r + r, Image(),
          GroupsBefore(imcuRowCtr), current)
    {
      hide Straight, Swapped, TopAbove, Wrapped, Shows, RowsBefore, GroupsBefore, Shown, AboveShown;
      Steps(imcuRowCtr, rowgroupCtr);
      Between(imcuRowCtr);
      Product(0, rowgroupCtr, r);
      Product(rowgroupCtr, rowgroupsAvail, r);
    }

    lemma NotTooMany()
      requires Valid()
      ensures 0 <= passed <= Groups()
    {
      hide Straight, Swapped, TopAbove, Wrapped, Shows, RowsBefore, GroupsBefore, Groups, Shown, ShowsImage, AboveShown;
      LastGroups();
      Between(total);
      if 1 <= imcuRowCtr <= total {
        Between(imcuRowCtr);
        Steps(imcuRowCtr, 0);
      }
    }

    // One call. ready tells whether the coefficient controller can deliver; room is how many
    // row groups the output buffer can take, partial whether it has room for some rows more.
    method ProcessData(ready: bool, room: nat, partial: bool) returns (out: seq<seq<Row>>)
      requires Valid() && passed < Groups()
      modifies this, rows, x0, x1
      ensures Valid() && passed == old(passed) + |out| && |out| <= room
      ensures WindowsFrom(Image(), r, old(passed), out)
      ensures ready && room > 0 ==> |out| > 0
      ensures |out| == room || !bufferFull
    {
      hide Straight, Swapped, TopAbove, Wrapped, Shows, RowsBefore, GroupsBefore, Groups, Shown, ShowsImage, AboveShown,
          WindowsFrom, Window;
      out := [];
      NoWindows();
      if !bufferFull {
        if !ready {
          return;
        }
        if contextState == PrepareForImcu {
          ReadFirst();
        } else {
          ReadNext();
        }
      }
      if contextState == PostponedRow {
        out := FeedPostponed(room);
        if contextState == PostponedRow {
          return;
        }
        if |out| >= room && !partial {
          return;
        }
      }
      if contextState == PrepareForImcu {
        Prepare();
      }
      var more := FeedImcu(room - |out|);
      MoreWindows(Image(), r, old(passed), out, more);
      out := out + more;
    }
  }

  lemma GroupBounds(x: int, r: int, m: int)
    requires r > 0 && m > 0 && 0 <= x < m * r
    ensures 0 <= x / r <= m - 1 && (x / r) * r <= x < (x / r + 1) * r
  {
    DivBounds(x, r);
    if x / r >= m { Product(m, x / r, r); }
  }

  lemma DivBounds(x: int, d: int)
    requires d > 0 && x >= 0
    ensures x / d >= 0 && (x / d) * d <= x < (x / d + 1) * d
  {
  }

  // What the caller offers in one call.
  datatype Call = Call(ready: bool, room: nat, partial: bool)

  // How many calls could not but pass something on.
  function Chances(calls: seq<Call>): nat {
    if calls == [] then 0 else Chances(calls[..|calls| - 1]) + if calls[|calls| - 1].ready
        && calls[|calls| - 1].room > 0 then 1 else 0
  }

  // The whole image, in any sequence of calls: every row group that is no dummy is passed
  // on once, in order, with its context, and all of them are when there are enough calls.
  method DecompressRows(r: int, m: int, height: int, total: int, source: seq<Row>, calls: seq<Call>)
      returns (groups: seq<seq<Row>>)
    requires r > 0 && m >= 2 && |source| == total * (m * r) && total > 0
        && (total - 1) * (m * r) < height <= total * (m * r)
    ensures var s := Source(source, height, (total - 1) * m);
            && WindowsFrom(s, r, 0, groups) && |groups| <= (height - 1) / r + 1
            && (|groups| == (height - 1) / r + 1 || |groups| >= Chances(calls))
    ensures 0 < height <= |source| && TrueWindows(source, height, (total - 1) * m, r, groups)
  {
    hide Window, Controller.Valid, WindowsFrom, TrueWindows;
    var c := new Controller(r, m, height, total, source);
    groups := [];
    c.NoWindows();
    ghost var s := c.Image();
    for i := 0 to |calls|
      invariant c.Valid() && c.Static() && fresh(c) && fresh(c.rows) && fresh(c.x0) && fresh(c.x1)
      invariant c.passed == |groups| <= c.Groups() && WindowsFrom(s, r, 0, groups)
      invariant |groups| == c.Groups() || |groups| >= Chances(calls[..i])
    {
      assert calls[..i + 1][..i] == calls[..i];
      if |groups| == c.Groups() {
        break;
      }
      var more := c.ProcessData(calls[i].ready, calls[i].room, calls[i].partial);
      MoreWindows(s, r, 0, groups, more);
      groups := groups + more;
      c.NotTooMany();
    }
    assert calls[..|calls|] == calls;
    WindowsAreTrue(s, r, groups);
  }

  // An image of 5 rows, in groups of 2, of which the last iMCU row has only one: with row
  // group 1 the dummy row below is passed on where the last row of the image should be.
  method DummyRowPassedOn() returns (image: seq<Row>, groups: seq<seq<Row>>)
    ensures |image| == 5 && |groups| == 3 && |groups[1]| == 6 && groups[1][5] != RowAt(image, 5)
  {
    image := [[0], [1], [2], [3], [4]];
    var calls := [Call(true, 1, false), Call(true, 1, false), Call(true, 1, false)];
    assert calls[..1][..0] == [] && calls[..2][..1] == calls[..1] && calls[..3] == calls
        && calls[..3][..2] == calls[..2];
    assert Chances(calls[..1]) == 1 && Chances(calls[..2]) == 2;
    groups := DecompressRows(2, 2, 5, 2, image + [[9], [9], [9]], calls);
  }
}
