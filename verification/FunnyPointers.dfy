// jdmainct.c: the two row lists of the main controller when context rows are needed.
// Pure facts about the lists; n rows make an iMCU row, r rows a row group.
module FunnyPointers {
  import opened ImageRows

  // A list has one row group at negative offsets, then those of an iMCU row and three more.
  function ListLength(n: int, r: int): int { n + 4 * r }

  predicate Sizes(n: int, r: int) { r > 0 && n >= 2 * r }

  // The workspace pointers as they are.
  predicate Straight(p: seq<nat>, n: int, r: int)
    requires Sizes(n, r)
  {
    |p| == ListLength(n, r) && forall x :: r <= x < n + 3 * r ==> p[x] == x - r
  }

  // In the second list the last four row groups are in swapped order.
  predicate Swapped(p: seq<nat>, n: int, r: int)
    requires Sizes(n, r)
  {
    && |p| == ListLength(n, r)
    && (forall x :: r <= x < n - r ==> p[x] == x - r)
    && (forall x :: n - r <= x < n + r ==> p[x] == x + r)
    && (forall x :: n + r <= x < n + 3 * r ==> p[x] == x - 3 * r)
  }

  // At the top of the image the rows above are the first one.
  predicate TopAbove(p: seq<nat>, n: int, r: int)
    requires Sizes(n, r)
  {
    |p| == ListLength(n, r) && forall x :: 0 <= x < r ==> p[x] == p[r]
  }

  // In the normal state the rows above are those of the last row group, and the rows
  // below those of the first.
  predicate Wrapped(p: seq<nat>, n: int, r: int)
    requires Sizes(n, r)
  {
    && |p| == ListLength(n, r)
    && (forall x :: 0 <= x < r ==> p[x] == p[x + n + 2 * r])
    && (forall x :: n + 3 * r <= x < n + 4 * r ==> p[x] == p[x - n - 2 * r])
  }

  // ---- What one sees through a list --------------------------------------------------------------------------------

  // Entries from..to (negative for the group above) show the rows of data from off on.
  predicate Shows(mem: seq<Row>, p: seq<nat>, r: int, from: int, to: int, data: seq<Row>, off: int) {
    && 0 <= r + from && r + to <= |p|
    && forall x ::
        r + from <= x < r + to ==> p[x] < |mem| && 0 <= x - r + off < |data| && mem[p[x]] == data[x - r + off]
  }

  // What has been read through one list is still there, and where the other wants it: the
  // last two row groups of the iMCU row before.
  lemma SwitchLists(mem: seq<Row>, p: seq<nat>, q: seq<nat>, n: int, r: int, data: seq<Row>, off: int)
    requires Sizes(n, r) && ((Straight(p, n, r) && Swapped(q, n, r)) || (Swapped(p, n, r) && Straight(q, n, r)))
    requires Shows(mem, p, r, n - 2 * r, n, data, off)
    ensures Shows(mem, q, r, n, n + 2 * r, data, off - 2 * r)
  {
    forall x | r + n <= x < r + n + 2 * r
      ensures q[x] < |mem| && 0 <= x - r + (off - 2 * r) < |data| && mem[q[x]] == data[x - r + (off - 2 * r)]
    {
      assert q[x] == p[x - 2 * r];
    }
  }

  // Different entries of a list point to different rows.
  lemma Apart(p: seq<nat>, n: int, r: int, x: int, y: int)
    requires Sizes(n, r) && (Straight(p, n, r) || Swapped(p, n, r)) && r <= x < y < n + 3 * r
    ensures p[x] != p[y] && p[x] < n + 2 * r && p[y] < n + 2 * r
  {
  }

  // The rows around: above the first and below the last row group.
  lemma AroundShown(mem: seq<Row>, p: seq<nat>, n: int, r: int, data: seq<Row>, off: int)
    requires Sizes(n, r) && Wrapped(p, n, r)
    ensures Shows(mem, p, r, n + r, n + 2 * r, data, off) ==> Shows(mem, p, r, -r, 0, data, off + n + 2 * r)
    ensures Shows(mem, p, r, 0, r, data, off) ==> Shows(mem, p, r, n + 2 * r, n + 3 * r, data, off - n - 2 * r)
  {
    if Shows(mem, p, r, n + r, n + 2 * r, data, off) {
      forall x | 0 <= x < r ensures p[x] < |mem| && 0 <= x - r + (off + n + 2 * r) < |data|
          && mem[p[x]] == data[x - r + (off + n + 2 * r)] {
        assert p[x + n + 2 * r] == p[x];
      }
    }
    if Shows(mem, p, r, 0, r, data, off) {
      forall x | n + 3 * r <= x < n + 4 * r
        ensures p[x] < |mem| && 0 <= x - r + (off - n - 2 * r) < |data| && mem[p[x]] == data[x - r + (off - n - 2 * r)]
      {
        assert p[x - n - 2 * r] == p[x];
      }
    }
  }

  lemma ShowsSame(mem: seq<Row>, p: seq<nat>, q: seq<nat>, r: int, a: int, b: int, data: seq<Row>, off: int)
    requires Shows(mem, p, r, a, b, data, off) && |q| == |p| && forall x :: r + a <= x < r + b ==> q[x] == p[x]
    ensures Shows(mem, q, r, a, b, data, off)
  {
  }

  lemma ShowsPart(mem: seq<Row>, p: seq<nat>, r: int, a: int, d: int, b: int, c: int, data: seq<Row>, off: int)
    requires Shows(mem, p, r, a, d, data, off) && a <= b <= c <= d
    ensures Shows(mem, p, r, b, c, data, off)
  {
  }

  // ---- What the postprocessor should see ---------------------------------------------------------------------------

  // What is delivered, iMCU row by iMCU row: the image, and dummy rows below it. Row
  // groups are counted from the top; those from number lastGroups on are in the last iMCU row.
  datatype Source = Source(rows: seq<Row>, height: int, lastGroups: int)

  predicate GoodSource(s: Source) { 0 < s.height <= |s.rows| }

  // Row y as it is shown with row group g. Only with the last iMCU row are dummy rows
  // hidden.
  function Shown(s: Source, g: int, y: int): Row
    requires GoodSource(s)
  {
    if y < 0 then s.rows[0]
    else if y < s.height || (g < s.lastGroups && y < |s.rows|) then s.rows[y]
    else s.rows[s.height - 1]
  }

  // A row group that begins with row base, with the groups above and below it.
  function Window(s: Source, r: int, g: int, base: int): (w: seq<Row>)
    requires GoodSource(s) && r > 0
    ensures |w| == 3 * r && forall k :: 0 <= k < 3 * r ==> w[k] == Shown(s, g, base - r + k)
  {
    seq(3 * r, k => Shown(s, g, base - r + k))
  }

  // The row groups in ws are those from number g on, in order.
  predicate WindowsFrom(s: Source, r: int, g: int, ws: seq<seq<Row>>) {
    GoodSource(s) && r > 0 && forall j :: 0 <= j < |ws| ==> ws[j] == Window(s, r, g + j, (g + j) * r)
  }

  // Each group is seen with r rows above it and r rows below it. Above the image they are its
  // first row. Below it they are what the last iMCU row holds there, as long as the group is
  // in an iMCU row before it, and the last row of the image otherwise.
  predicate TrueWindows(rows: seq<Row>, height: int, lastGroups: int, r: int, ws: seq<seq<Row>>)
    requires 0 < height <= |rows|
  {
    forall g :: 0 <= g < |ws| ==>
      |ws[g]| == 3 * r && forall k :: 0 <= k < 3 * r ==>
        var y := g * r - r + k;
        ws[g][k] == if y < 0 then rows[0]
                    else if y < height then rows[y]
                    else if g < lastGroups && y < |rows| then rows[y]
                    else rows[height - 1]
  }

  lemma WindowsAreTrue(s: Source, r: int, ws: seq<seq<Row>>)
    requires WindowsFrom(s, r, 0, ws)
    ensures TrueWindows(s.rows, s.height, s.lastGroups, r, ws)
  {
    hide Window;
    forall g | 0 <= g < |ws| ensures ws[g] == Window(s, r, g, g * r) {
      assert ws[g] == Window(s, r, 0 + g, (0 + g) * r);
    }
  }

  lemma OneMoreWindow(s: Source, r: int, g: int, ws: seq<seq<Row>>, w: seq<Row>)
    requires WindowsFrom(s, r, g, ws) && w == Window(s, r, g + |ws|, (g + |ws|) * r)
    ensures WindowsFrom(s, r, g, ws + [w])
  {
    hide Window;
  }

  lemma MoreWindows(s: Source, r: int, g: int, a: seq<seq<Row>>, b: seq<seq<Row>>)
    requires WindowsFrom(s, r, g, a) && WindowsFrom(s, r, g + |a|, b)
    ensures WindowsFrom(s, r, g, a + b)
  {
    hide Window;
  }

  // Entries from..to of a list, from row off on, as they should be shown with row group g.
  predicate ShowsImage(mem: seq<Row>, p: seq<nat>, r: int, from: int, to: int, s: Source, g: int, off: int) {
    && GoodSource(s) && 0 <= r + from && r + to <= |p|
    && forall x :: r + from <= x < r + to ==> p[x] < |mem| && mem[p[x]] == Shown(s, g, x - r + off)
  }

  // Before the last iMCU row, and with the first one at the top of the image.
  lemma InnerShown(mem: seq<Row>, p: seq<nat>, n: int, r: int, s: Source, g: int, off: int)
    requires Sizes(n, r) && GoodSource(s) && g < s.lastGroups && Shows(mem, p, r, 0, n, s.rows, off) && off >= 0
    requires if off == 0 then TopAbove(p, n, r) else Shows(mem, p, r, -r, 0, s.rows, off)
    ensures ShowsImage(mem, p, r, -r, n, s, g, off)
  {
    forall x | 0 <= x < r + n ensures p[x] < |mem| && mem[p[x]] == Shown(s, g, x - r + off) {
      if x < r && off == 0 { assert p[x] == p[r]; }
    }
  }

  // The postponed row group, between the last rows of one iMCU row and the first of the next.
  lemma PostponedShown(mem: seq<Row>, p: seq<nat>, n: int, r: int, s: Source, g: int, off: int)
    requires Sizes(n, r) && GoodSource(s) && g < s.lastGroups && Shows(mem, p, r, n, n + 3 * r, s.rows, off)
    ensures ShowsImage(mem, p, r, n, n + 3 * r, s, g, off)
  {
  }

  // The last iMCU row, its list changed by set_bottom_pointers.
  lemma BottomShown(mem: seq<Row>, p: seq<nat>, b: seq<nat>, n: int, r: int, left: int, s: Source, g: int, off: int)
    requires Sizes(n, r) && GoodSource(s) && g >= s.lastGroups && |p| == |b| == ListLength(n, r) && 0 < left <= n
        && off >= 0 && off + left == s.height
    requires Shows(mem, p, r, 0, n, s.rows, off)
        && if off == 0 then TopAbove(p, n, r) else Shows(mem, p, r, -r, 0, s.rows, off)
    requires forall i :: 0 <= i < |b| ==> b[i] == if r + left <= i < 3 * r + left then p[r + left - 1] else p[i]
    ensures ShowsImage(mem, b, r, -r, left + 2 * r, s, g, off)
  {
    forall x | 0 <= x < r + left + 2 * r ensures b[x] < |mem| && mem[b[x]] == Shown(s, g, x - r + off) {
      if x < r && off == 0 { assert p[x] == p[r]; }
      if x >= r + left { assert mem[p[r + left - 1]] == s.rows[left - 1 + off]; }
    }
  }

  // Row groups on the same side of the last iMCU row.
  predicate SameSide(s: Source, g: int, from: int, to: int) {
    if g < s.lastGroups then to <= s.lastGroups else s.lastGroups <= from
  }

  lemma ImagePart(mem: seq<Row>, p: seq<nat>, r: int, a: int, d: int, b: int, c: int, s: Source, g: int, h: int,
      off: int)
    requires ShowsImage(mem, p, r, a, d, s, g, off) && a <= b <= c <= d && (g < s.lastGroups <==> h < s.lastGroups)
    ensures ShowsImage(mem, p, r, b, c, s, h, off)
  {
  }

  // After another iMCU row has been read through list p, what p shows beyond it is still there.
  lemma StillShown(before: seq<Row>, after: seq<Row>, p: seq<nat>, n: int, r: int, data: seq<Row>, off: int)
    requires Sizes(n, r) && (Straight(p, n, r) || Swapped(p, n, r)) && |before| == |after| == n + 2 * r
    requires Shows(before, p, r, n, n + 2 * r, data, off)
    requires forall y :: 0 <= y < |after| && (forall i :: r <= i < r + n ==> p[i] != y) ==> after[y] == before[y]
    ensures Shows(after, p, r, n, n + 2 * r, data, off)
  {
    forall x | r + n <= x < r + n + 2 * r ensures after[p[x]] == before[p[x]] {
      forall i | r <= i < r + n ensures p[i] != p[x] { Apart(p, n, r, i, x); }
    }
  }

  // ---- What is guaranteed ------------------------------------------------------------------------------------------

  // The rows of the group itself, those of the group above and the row below are always
  // those of the image.
  lemma NextRowsRight(s: Source, r: int, g: int, y: int)
    requires GoodSource(s) && r > 0 && 0 <= g && g * r < s.height && g * r - r <= y <= g * r + r
    requires s.lastGroups * r < s.height
    ensures Shown(s, g, y) == RowAt(s.rows[..s.height], y)
  {
    if g < s.lastGroups { Product(g + 1, s.lastGroups, r); }
  }

  lemma Product(a: int, b: int, r: int)
    requires a <= b && r > 0
    ensures a * r <= b * r && (a - 1) * r == a * r - r
  {
  }

  // The row group and all of the groups around it are those of the image.
  predicate Exact(s: Source, r: int, g: int)
    requires GoodSource(s) && r > 0
  {
    forall k :: 0 <= k < 3 * r ==> Window(s, r, g, g * r)[k] == RowAt(s.rows[..s.height], g * r - r + k)
  }

  // Below the last group before the last iMCU row there are rows that are not of the image.
  predicate DummyBelow(len: int, height: int, lastGroups: int, r: int, g: int) {
    g + 1 == lastGroups && lastGroups * r + r > height && len > height
  }

  lemma WindowExact(s: Source, r: int, g: int)
    requires GoodSource(s) && r > 0 && 0 <= g && s.lastGroups * r < s.height
    requires !DummyBelow(|s.rows|, s.height, s.lastGroups, r, g)
    ensures Exact(s, r, g)
  {
    if g + 1 < s.lastGroups {
      Product(g + 2, s.lastGroups, r);
      Product(g + 1, g + 2, r);
    } else { Product(g, g + 1, r); }
  }

  // That is the case in which the dummy rows of the last iMCU row are seen: then, and
  // only then, the context is not that of the image whatever the rows are.
  lemma ExactIff(len: nat, height: int, lastGroups: int, r: int, g: int)
    requires 0 < height <= len && r > 0 && 0 <= g && lastGroups * r < height
    ensures (forall rows: seq<Row> :: |rows| == len ==> Exact(Source(rows, height, lastGroups), r, g)) <==>
        !DummyBelow(len, height, lastGroups, r, g)
  {
    if DummyBelow(len, height, lastGroups, r, g) {
      var rows: seq<Row> := seq(len, y => if y < height then [0] else [1]);
      var s, k := Source(rows, height, lastGroups), height - (g * r - r);
      Product(g, g + 1, r);
      assert Window(s, r, g, g * r)[k] == [1] && RowAt(s.rows[..s.height], g * r - r + k) == [0];
    } else {
      forall rows: seq<Row> | |rows| == len ensures Exact(Source(rows, height, lastGroups), r, g) {
        WindowExact(Source(rows, height, lastGroups), r, g);
      }
    }
  }

  // Every component has the same number of row groups: h image rows, m row groups in b
  // image rows, r rows of the component in a row group.
  lemma SameForAll(h: nat, m: nat, b: nat, r: nat)
    requires m > 0 && b > 0 && r > 0
    ensures CeilDiv(CeilDiv(h * (r * m), b), r) == CeilDiv(h * m, b)
  {
    var q := CeilDiv(h * (r * m), b);
    var c := CeilDiv(h * m, b);
    CeilMeans(h * (r * m), b);
    CeilMeans(h * m, b);
    CeilMeans(q, r);
    var d := CeilDiv(q, r);
    Times(h, r, m);
    // both are the least number that reaches far enough
    Reach(q, c, r, b, h * m);
    NotReach(q, d, r, b, h * m);
  }

  function CeilDiv(a: nat, b: nat): (q: nat)
    requires b > 0
  {
    (a + b - 1) / b
  }

  lemma CeilMeans(a: nat, b: nat)
    requires b > 0
    ensures CeilDiv(a, b) * b >= a && (CeilDiv(a, b) > 0 ==> (CeilDiv(a, b) - 1) * b < a)
  {
    var q, x := (a + b - 1) / b, (a + b - 1) % b;
    assert a + b - 1 == b * q + x;
    assert b * q == q * b && (q - 1) * b == q * b - b;
  }

  lemma Times(h: nat, r: nat, m: nat)
    ensures h * (r * m) == r * (h * m)
  {
    assert h * (r * m) == (h * r) * m;
    assert r * (h * m) == (r * h) * m;
  }

  lemma Reach(q: nat, c: nat, r: nat, b: nat, hm: nat)
    requires r > 0 && b > 0 && c * b >= hm && (q > 0 ==> (q - 1) * b < r * hm)
    ensures CeilDiv(q, r) <= c
  {
    CeilMeans(q, r);
    var d := CeilDiv(q, r);
    if d > c {
      Product(c, d - 1, r);
      Product(c * r, q - 1, b);
      TripleProduct(c, r, b);
      Product(hm, c * b, r);
      assert false;
    }
  }

  lemma TripleProduct(c: int, r: int, b: int)
    ensures (c * r) * b == (c * b) * r
  {
  }

  lemma NotReach(q: nat, d: nat, r: nat, b: nat, hm: nat)
    requires r > 0 && b > 0 && q * b >= r * hm && d * r >= q
    ensures CeilDiv(hm, b) <= d
  {
    CeilMeans(hm, b);
    var c := CeilDiv(hm, b);
    if c > d {
      Product(d, c - 1, b);
      Product(q, d * r, b);
      TripleProduct(d, r, b);
      Strict(d * b, hm, r);
      assert false;
    }
  }

  lemma Strict(x: int, y: int, r: int)
    requires x < y && r > 0
    ensures r * x < r * y
  {
  }
}
