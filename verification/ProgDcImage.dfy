// A progressive DC scan of an image: the blocks of its components in MCU order, written
// and read back into the decoder's blocks.
module ProgDcImage {
  import opened HuffDerived
  import opened ProgDc
  import opened ProgDcIntervals
  import opened ProgDcScan

  // The blocks of each component.
  type Image = seq<seq<seq<int>>>

  // Which block of which of the scan's components comes where.
  datatype Slot = Slot(ci: nat, b: nat)

  // The components of the scan, by their place in the image.
  predicate GoodLayout(index: seq<nat>, image: Image, layout: seq<seq<Slot>>) {
    && (forall i :: 0 <= i < |index| ==> index[i] < |image|)
    && (forall i, j :: 0 <= i < |layout| && 0 <= j < |layout[i]| ==>
          layout[i][j].ci < |index| && layout[i][j].b < |image[index[layout[i][j].ci]]|)
  }

  // Every block of the components is there.
  ghost predicate Complete(index: seq<nat>, image: Image, layout: seq<seq<Slot>>) {
    && (forall i :: 0 <= i < |index| ==> index[i] < |image|)
    && forall ci, b :: 0 <= ci < |index| && 0 <= b < |image[index[ci]]| ==> SlotFor(layout, ci, b)
  }

  predicate SlotFor(layout: seq<seq<Slot>>, ci: nat, b: nat) {
    exists i, j :: 0 <= i < |layout| && 0 <= j < |layout[i]| && layout[i][j] == Slot(ci, b)
  }

  predicate Blocks64(image: Image) {
    forall c, b :: 0 <= c < |image| && 0 <= b < |image[c]| ==> |image[c][b]| == 64
  }

  // The DC coefficients in MCU order.
  function McuUnits(index: seq<nat>, image: Image, slots: seq<Slot>): (units: seq<Unit>)
    requires Blocks64(image) && GoodLayout(index, image, [slots])
    ensures |units| == |slots|
    ensures forall j :: 0 <= j < |slots| ==> units[j] == Unit(slots[j].ci, image[index[slots[j].ci]][slots[j].b][0])
  {
    seq(|slots|, j requires 0 <= j < |slots| =>
      assert [slots][0][j] == slots[j];
      Unit(slots[j].ci, image[index[slots[j].ci]][slots[j].b][0]))
  }

  function UnitsOf(index: seq<nat>, image: Image, layout: seq<seq<Slot>>): (mcus: seq<seq<Unit>>)
    requires Blocks64(image) && GoodLayout(index, image, layout)
    ensures |mcus| == |layout|
    ensures forall i ::
        0 <= i < |layout| ==> GoodLayout(index, image, [layout[i]]) && mcus[i] == McuUnits(index, image, layout[i])
  {
    OneMcuLayouts(index, image, layout);
    seq(|layout|, i requires 0 <= i < |layout| => McuUnits(index, image, layout[i]))
  }

  lemma OneMcuLayouts(index: seq<nat>, image: Image, layout: seq<seq<Slot>>)
    requires GoodLayout(index, image, layout)
    ensures forall i :: 0 <= i < |layout| ==> GoodLayout(index, image, [layout[i]])
  {
  }

  lemma UnitsAreGood(s: DcScan, index: seq<nat>, image: Image, layout: seq<seq<Slot>>)
    requires GoodDcScan(s) && |index| == |s.tbls| && Blocks64(image) && GoodLayout(index, image, layout)
    ensures McusOf(s, UnitsOf(index, image, layout))
  {
    forall i | 0 <= i < |layout| ensures GoodUnits(s.tbls, UnitsOf(index, image, layout)[i]) {
      forall j | 0 <= j < |layout[i]| ensures McuUnits(index, image, layout[i])[j].ci < |s.tbls| { }
    }
  }

  lemma {:induction false} FlatHas(mcus: seq<seq<Unit>>, i: nat, j: nat)
    requires i < |mcus| && j < |mcus[i]|
    ensures Occurs(Flat(mcus), mcus[i][j].ci)
    decreases |mcus|
  {
    if i == 0 {
      assert Flat(mcus)[j] == mcus[0][j];
    } else {
      FlatHas(mcus[1..], i - 1, j);
      var x :| 0 <= x < |Flat(mcus[1..])| && Flat(mcus[1..])[x].ci == mcus[i][j].ci;
      assert Flat(mcus)[|mcus[0]| + x] == Flat(mcus[1..])[x];
    }
  }

  lemma UnitsAllThere(s: DcScan, index: seq<nat>, image: Image, layout: seq<seq<Slot>>)
    requires GoodDcScan(s) && |index| == |s.tbls| && Blocks64(image) && GoodLayout(index, image, layout)
        && Complete(index, image, layout)
    requires forall c :: 0 <= c < |image| ==> image[c] != []
    ensures AllThere(s, UnitsOf(index, image, layout))
  {
    var mcus := UnitsOf(index, image, layout);
    forall ci | 0 <= ci < |s.tbls| ensures Occurs(Flat(mcus), ci) {
      assert SlotFor(layout, ci, 0);
      var i, j :| 0 <= i < |layout| && 0 <= j < |layout[i]| && layout[i][j] == Slot(ci, 0);
      assert mcus[i][j].ci == ci;
      FlatHas(mcus, i, j);
    }
  }

  // ---- Into the decoder's blocks -----------------------------------------------------------------------------------

  predicate SameShape(a: Image, b: Image) {
    |a| == |b| && forall c :: 0 <= c < |a| ==> |a[c]| == |b[c]|
  }

  // Blocks in done have been given the DC value that is wanted for them.
  predicate Filled(before: Image, now: Image, want: seq<seq<int>>, done: set<(int, int)>) {
    && SameShape(before, now) && |want| == |before| && (forall c :: 0 <= c < |want| ==> |want[c]| == |before[c]|)
    && Blocks64(before)
    && forall c, b :: 0 <= c < |before| && 0 <= b < |before[c]| ==>
         now[c][b] == if (c, b) in done then before[c][b][0 := want[c][b]] else before[c][b]
  }

  predicate SlotDone(index: seq<nat>, slot: Slot, done: set<(int, int)>) {
    slot.ci < |index| && (index[slot.ci], slot.b) in done
  }

  method StoreMcu(index: seq<nat>, slots: seq<Slot>, values: seq<int>, now: Image, ghost before: Image,
      ghost want: seq<seq<int>>, ghost done: set<(int, int)>)
    returns (now': Image, ghost done': set<(int, int)>)
    requires Filled(before, now, want, done) && GoodLayout(index, before, [slots]) && |values| == |slots|
    requires forall j ::
        0 <= j < |slots| ==>
        GoodLayout(index, before, [slots]) && slots[j].ci < |index| && index[slots[j].ci] < |want|
        && slots[j].b < |want[index[slots[j].ci]]| && values[j] == want[index[slots[j].ci]][slots[j].b]
    ensures Filled(before, now', want, done') && done <= done'
        && forall j :: 0 <= j < |slots| ==> SlotDone(index, slots[j], done')
    ensures forall x <- done' :: x in done || exists i :: 0 <= i < |index| && index[i] == x.0
  {
    now', done' := now, done;
    for j := 0 to |slots|
      invariant Filled(before, now', want, done') && done <= done'
          && forall i :: 0 <= i < j ==> SlotDone(index, slots[i], done')
      invariant forall x <- done' :: x in done || exists i :: 0 <= i < |index| && index[i] == x.0
    {
      assert [slots][0][j] == slots[j];
      var c, b := index[slots[j].ci], slots[j].b;
      now' := now'[c := now'[c][b := now'[c][b][0 := values[j]]]];
      done' := done' + {(c, b)};
    }
  }

  // The values of all MCUs go to their blocks.
  predicate Wanted(index: seq<nat>, layout: seq<seq<Slot>>, values: seq<seq<int>>, want: seq<seq<int>>) {
    && |values| == |layout|
    && forall i :: 0 <= i < |layout| ==> |values[i]| == |layout[i]| && forall j :: 0 <= j < |layout[i]| ==>
         var s := layout[i][j];
         s.ci < |index| && index[s.ci] < |want| && s.b < |want[index[s.ci]]| && values[i][j] == want[index[s.ci]][s.b]
  }

  predicate InIndex(index: seq<nat>, c: int) { exists i :: 0 <= i < |index| && index[i] == c }

  method StoreDc(index: seq<nat>, layout: seq<seq<Slot>>, values: seq<seq<int>>, before: Image,
      ghost want: seq<seq<int>>) returns (now: Image)
    requires Blocks64(before) && GoodLayout(index, before, layout) && Complete(index, before, layout)
        && Wanted(index, layout, values, want)
    requires |want| == |before| && forall c :: 0 <= c < |want| ==> |want[c]| == |before[c]|
    ensures SameShape(before, now)
    ensures forall c, b :: 0 <= c < |before| && 0 <= b < |before[c]| ==>
              now[c][b] == if InIndex(index, c) then before[c][b][0 := want[c][b]] else before[c][b]
  {
    hide Complete;
    now := before;
    ghost var done: set<(int, int)> := {};
    OneMcuLayouts(index, before, layout);
    for i := 0 to |layout|
      invariant Filled(before, now, want, done)
      invariant forall x, y :: 0 <= x < i && 0 <= y < |layout[x]| ==> SlotDone(index, layout[x][y], done)
      invariant forall x <- done :: InIndex(index, x.0)
    {
      ghost var was := done;
      now, done := StoreMcu(index, layout[i], values[i], now, before, want, done);
    }
    forall c, b | 0 <= c < |before| && 0 <= b < |before[c]| ensures (c, b) in done <==> InIndex(index, c) {
      if InIndex(index, c) { CompleteDone(index, before, layout, done, c, b); }
    }
  }

  lemma CompleteDone(index: seq<nat>, image: Image, layout: seq<seq<Slot>>, done: set<(int, int)>, c: nat, b: nat)
    requires Complete(index, image, layout) && c < |image| && b < |image[c]| && InIndex(index, c)
    requires forall x, y :: 0 <= x < |layout| && 0 <= y < |layout[x]| ==> SlotDone(index, layout[x][y], done)
    ensures (c, b) in done
  {
    var ci :| 0 <= ci < |index| && index[ci] == c;
    assert SlotFor(layout, ci, b);
    var i, j :| 0 <= i < |layout| && 0 <= j < |layout[i]| && layout[i][j] == Slot(ci, b);
    assert SlotDone(index, layout[i][j], done);
  }
}
