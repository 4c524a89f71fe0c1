// The counts of codes of each length, and how much of the code space they take.
module HuffSpace {
  import opened Bytes
  import opened Kraft

  const MAX_CLEN := 32

  // How many code values of length m are taken: a code of length k takes 2^(m-k) of them.
  function Space(bits: seq<nat>, m: nat): nat
    requires m < |bits|
  {
    if m == 0 then bits[0] else 2 * Space(bits, m - 1) + bits[m]
  }

  lemma {:induction false} SpaceUpdate(bits: seq<nat>, m: nat, k: nat, v: nat)
    requires m < |bits| && k < |bits|
    ensures k > m ==> Space(bits[k := v], m) == Space(bits, m)
    ensures k <= m ==> Space(bits[k := v], m) == Space(bits, m) + (v - bits[k]) * Pow2(m - k)
  {
    if m > 0 {
      SpaceUpdate(bits, m - 1, k, v);
      if k < m {
        DoubleProduct(v - bits[k], Pow2(m - 1 - k));
      }
    }
  }

  lemma DoubleProduct(x: int, y: nat)
    ensures 2 * (x * y) == x * (2 * y)
  {
  }

  lemma {:induction false} SpaceAgree(a: seq<nat>, b: seq<nat>, m: nat)
    requires m < |a| && m < |b| && forall k :: 0 <= k <= m ==> a[k] == b[k]
    ensures Space(a, m) == Space(b, m)
  {
    if m > 0 { SpaceAgree(a, b, m - 1); }
  }

  lemma {:induction false} NoSpace(bits: seq<nat>, m: nat)
    requires m < |bits| && forall k :: 0 <= k <= m ==> bits[k] == 0
    ensures Space(bits, m) == 0
  {
    if m > 0 { NoSpace(bits, m - 1); }
  }

  predicate NoneAbove(bits: seq<nat>, m: nat) {
    forall k :: m < k < |bits| ==> bits[k] == 0
  }

  // A full code space stays full when it is measured at the longest length in use.
  lemma {:induction false} FullBelow(bits: seq<nat>, m: nat, i: nat)
    requires i <= m < |bits| && NoneAbove(bits, i) && Space(bits, m) == Pow2(m)
    ensures Space(bits, i) == Pow2(i)
    decreases m
  {
    if i < m { FullBelow(bits, m - 1, i); }
  }

  lemma {:induction false} FullAbove(bits: seq<nat>, m: nat, i: nat)
    requires i <= m < |bits| && NoneAbove(bits, i) && Space(bits, i) == Pow2(i)
    ensures Space(bits, m) == Pow2(m)
    decreases m
  {
    if i < m { FullAbove(bits, m - 1, i); }
  }

  // The longest codes come in pairs.
  lemma LongestAreEven(bits: seq<nat>, m: nat, i: nat)
    requires 0 < i <= m < |bits| && NoneAbove(bits, i) && Space(bits, m) == Pow2(m)
    ensures bits[i] % 2 == 0
  {
    FullBelow(bits, m, i);
    assert Pow2(i) == 2 * Pow2(i - 1) && Space(bits, i) == 2 * Space(bits, i - 1) + bits[i];
  }

  // When more than 16 bits are needed by at most 255 symbols, some symbol has a
  // code at least two bits shorter than the longest.
  lemma SomeShorter(bits: seq<nat>, m: nat, i: nat)
    requires 16 < i <= m < |bits| && NoneAbove(bits, i) && Space(bits, m) == Pow2(m)
    requires Sum(bits) <= 255
    ensures exists j :: 0 <= j <= i - 2 && bits[j] > 0
  {
    FullBelow(bits, m, i);
    SumTwo(bits, i - 1, i);
    Pow2Mono(16, i);
    Pow2Table();
    assert Space(bits, i) == 4 * Space(bits, i - 2) + 2 * bits[i - 1] + bits[i];
    SomeCode(bits, i - 2);
  }

  lemma SomeCode(bits: seq<nat>, m: nat)
    requires m < |bits| && Space(bits, m) > 0
    ensures exists j :: 0 <= j <= m && bits[j] > 0
  {
    if forall j :: 0 <= j <= m ==> bits[j] == 0 {
      NoSpace(bits, m);
    }
  }

  // Two codes of length i give way to one of length i - 1 and two of length j + 1
  // in the place of one of length j.
  function Shift(bits: seq<nat>, i: nat, j: nat): (b: seq<nat>)
    requires j + 2 <= i < |bits| && bits[i] >= 2 && bits[j] > 0
    ensures |b| == |bits|
  {
    var b1 := bits[i := bits[i] - 2];
    var b2 := b1[i - 1 := b1[i - 1] + 1];
    var b3 := b2[j + 1 := b2[j + 1] + 2];
    b3[j := b3[j] - 1]
  }

  lemma SpaceStep(bits: seq<nat>, m: nat, k: nat, d: int)
    requires k <= m < |bits| && bits[k] + d >= 0
    ensures Space(bits[k := bits[k] + d], m) == Space(bits, m) + d * Pow2(m - k)
    ensures Sum(bits[k := bits[k] + d]) == Sum(bits) + d
  {
    hide Space, Sum;
    SpaceUpdate(bits, m, k, bits[k] + d);
    SumUpdate(bits, k, bits[k] + d);
  }

  lemma ShiftKeeps(bits: seq<nat>, m: nat, i: nat, j: nat)
    requires j + 2 <= i <= m < |bits| && bits[i] >= 2 && bits[j] > 0
    ensures Sum(Shift(bits, i, j)) == Sum(bits)
    ensures Space(Shift(bits, i, j), m) == Space(bits, m)
  {
    hide Space, Sum;
    var b1 := bits[i := bits[i] - 2];
    var b2 := b1[i - 1 := b1[i - 1] + 1];
    var b3 := b2[j + 1 := b2[j + 1] + 2];
    SpaceStep(bits, m, i, -2);
    SpaceStep(b1, m, i - 1, 1);
    SpaceStep(b2, m, j + 1, 2);
    SpaceStep(b3, m, j, -1);
    assert Pow2(m - i + 1) == 2 * Pow2(m - i) && Pow2(m - j) == 2 * Pow2(m - j - 1);
  }

  // ---- Making room for no code of all ones ----------------------------------------------

  // At every length the code of all ones stays free.
  predicate LeavesOnesFree(bits: seq<nat>) {
    forall m :: 0 <= m < |bits| ==> Space(bits, m) < Pow2(m)
  }

  lemma {:induction false} NotFullBefore(bits: seq<nat>, m: nat, i: nat)
    requires m < i < |bits| && bits[i] > 0 && Space(bits, i) <= Pow2(i)
    ensures Space(bits, m) < Pow2(m)
    decreases i - m
  {
    if m + 1 < i {
      NotFullBefore(bits, m + 1, i);
    }
  }

  lemma {:induction false} NotFullAfter(bits: seq<nat>, m: nat, i: nat)
    requires i <= m < |bits| && NoneAbove(bits, i) && Space(bits, i) < Pow2(i)
    ensures Space(bits, m) < Pow2(m)
    decreases m
  {
    if i < m { NotFullAfter(bits, m - 1, i); }
  }

  // Giving up one of the longest codes of a full code space frees the code of all ones.
  lemma DropLongest(bits: seq<nat>, i: nat)
    requires i < |bits| && NoneAbove(bits, i) && bits[i] > 0 && Space(bits, i) == Pow2(i)
    ensures LeavesOnesFree(bits[i := bits[i] - 1])
  {
    hide Space, Sum;
    var b := bits[i := bits[i] - 1];
    SpaceStep(bits, i, i, -1);
    assert Space(b, i) < Pow2(i);
    forall m | 0 <= m < |b| ensures Space(b, m) < Pow2(m) {
      if m < i {
        NotFullBefore(bits, m, i);
        SpaceUpdate(bits, m, i, bits[i] - 1);
      } else {
        NotFullAfter(b, m, i);
      }
    }
  }

  // ---- Counting the lengths ----------------------------------------------------------------

  // tally[n] symbols have the length n; a length of zero means no code.
  function Tally(size: seq<nat>): (t: seq<nat>)
    requires forall s :: 0 <= s < |size| ==> size[s] <= MAX_CLEN
    ensures |t| == MAX_CLEN + 1 && t[0] == 0
  {
    if size == [] then seq(MAX_CLEN + 1, _ => 0)
    else
      var t, n := Tally(size[..|size| - 1]), size[|size| - 1];
      if n == 0 then t else t[n := t[n] + 1]
  }

  // The number of symbols with a code.
  function Used(size: seq<nat>): (u: nat)
    ensures u <= |size|
  {
    if size == [] then 0 else Used(size[..|size| - 1]) + if size[|size| - 1] > 0 then 1 else 0
  }

  lemma {:induction false} TallyCounts(size: seq<nat>)
    requires forall s :: 0 <= s < |size| ==> size[s] <= MAX_CLEN
    ensures Sum(Tally(size)) == Used(size)
  {
    if size == [] {
      SumZero(Tally(size));
    } else {
      var t, n := Tally(size[..|size| - 1]), size[|size| - 1];
      TallyCounts(size[..|size| - 1]);
      SumUpdate(t, n, t[n] + 1);
    }
  }

  lemma {:induction false} TallySpace(w: seq<nat>, size: seq<nat>)
    requires |w| == |size| && forall s :: 0 <= s < |size| ==> size[s] <= MAX_CLEN && (w[s] > 0 <==> size[s] > 0)
    ensures Space(Tally(size), MAX_CLEN) == Sum(Cells(w, size, MAX_CLEN))
  {
    hide Pow2, Space;
    if size == [] {
      NoSpace(Tally(size), MAX_CLEN);
    } else {
      var k := |size| - 1;
      var t, n := Tally(size[..k]), size[k];
      TallySpace(w[..k], size[..k]);
      var c := Cells(w, size, MAX_CLEN);
      assert c[..k] == Cells(w[..k], size[..k], MAX_CLEN);
      assert Sum(c) == Sum(c[..k]) + c[k];
      SpaceUpdate(t, MAX_CLEN, n, t[n] + 1);
    }
  }

  // ---- From optimal lengths to counts ------------------------------------------------------

  lemma {:induction false} CompleteAt(w: seq<nat>, size: seq<nat>, k: nat, m: nat)
    requires |size| == |w| && Fits(w, size, k) && Fits(w, size, m)
    requires Sum(Cells(w, size, k)) == Pow2(k)
    ensures Sum(Cells(w, size, m)) == Pow2(m)
    decreases if k < m then m - k else k - m
  {
    if k < m {
      SumDouble(Cells(w, size, k), Cells(w, size, k + 1));
      CompleteAt(w, size, k + 1, m);
    } else if m < k {
      SumDouble(Cells(w, size, k - 1), Cells(w, size, k));
      CompleteAt(w, size, k - 1, m);
    }
  }

  lemma OneShare(w: seq<nat>, size: seq<nat>, k: nat, x: nat)
    requires |size| == |w| && Fits(w, size, k) && x < |w| && w[x] > 0
    ensures size[x] <= k && Cells(w, size, k)[x] == Pow2(k - size[x]) > 0
  {
  }

  // With two symbols to tell apart, none of them can do without a code.
  lemma NoEmptyCode(w: seq<nat>, size: seq<nat>, k: nat, x: nat, y: nat)
    requires |size| == |w| && Fits(w, size, k) && Sum(Cells(w, size, k)) == Pow2(k)
    requires x < |w| && y < |w| && x != y && w[x] > 0 && w[y] > 0
    ensures size[x] > 0
  {
    hide Sum, Pow2, Cells, Fits;
    OneShare(w, size, k, x);
    OneShare(w, size, k, y);
    if x < y { SumTwo(Cells(w, size, k), x, y); } else { SumTwo(Cells(w, size, k), y, x); }
  }
}
