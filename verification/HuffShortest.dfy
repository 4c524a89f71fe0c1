// The finished table against the optimal lengths it was built from: where none of
// them exceeds 16 bits, no symbol gets a longer code than its optimal one, so no
// prefix code for the counts is cheaper than the table.
module HuffShortest {
  import opened Kraft
  import opened HuffSpace
  import opened HuffTree
  import opened HuffGen
  import opened HuffCode

  // ---- Counting the short ones ------------------------------------------------------------

  // How many of the symbols have a code of at most l bits.
  function UpTo(size: seq<nat>, l: nat): nat {
    if size == [] then 0
    else UpTo(size[..|size| - 1], l) + if 0 < size[|size| - 1] <= l then 1 else 0
  }

  lemma {:induction false} TallyUpTo(size: seq<nat>, l: nat)
    requires (forall s :: 0 <= s < |size| ==> size[s] <= MAX_CLEN) && l <= MAX_CLEN
    ensures First(Tally(size), l + 1) == UpTo(size, l)
  {
    if size == [] {
      SumZero(Tally(size)[..l + 1]);
    } else {
      var t, n := Tally(size[..|size| - 1]), size[|size| - 1];
      TallyUpTo(size[..|size| - 1], l);
      if 0 < n <= l {
        assert t[n := t[n] + 1][..l + 1] == t[..l + 1][n := t[n] + 1];
        SumUpdate(t[..l + 1], n, t[n] + 1);
      } else if n > l {
        assert t[n := t[n] + 1][..l + 1] == t[..l + 1];
      }
    }
  }

  // Distinct symbols with short codes are no more than there are such symbols.
  lemma {:induction false} DistinctUpTo(size: seq<nat>, l: nat, v: set<nat>)
    requires forall x <- v :: x < |size| && 0 < size[x] <= l
    ensures |v| <= UpTo(size, l)
    decreases |size|
  {
    if size == [] {
      assert v == {};
    } else {
      var n := |size| - 1;
      DistinctUpTo(size[..n], l, v - {n});
    }
  }

  function Elements(v: seq<nat>): set<nat> {
    set x <- v
  }

  lemma {:induction false} Distinct(v: seq<nat>)
    requires forall j, k :: 0 <= j < k < |v| ==> v[j] != v[k]
    ensures |Elements(v)| == |v|
  {
    if v != [] {
      var u, x := v[..|v| - 1], v[|v| - 1];
      Distinct(u);
      assert Elements(v) == Elements(u) + {x};
    }
  }

  // A symbol's place in the list is below the number of codes as short as its own.
  lemma PlaceBelow(size: seq<nat>, v: seq<nat>, bound: nat, p: nat)
    requires |size| == REAL && Listed(size, v, bound) && p < |v|
    ensures v[p] < REAL && p < UpTo(size, size[v[p]])
  {
    hide UpTo;
    var u, l := v[..p + 1], size[v[p]];
    forall j, k | 0 <= j < k < |u| ensures u[j] != u[k] {
      assert Key(size, v[j]) < Key(size, v[k]);
    }
    Distinct(u);
    forall x <- u ensures x < |size| && 0 < size[x] <= l {
      var j :| 0 <= j < |u| && u[j] == x;
      assert j < p ==> Key(size, v[j]) < Key(size, v[p]);
    }
    DistinctUpTo(size, l, Elements(u));
  }

  // ---- The table --------------------------------------------------------------------------

  predicate Short(size: seq<nat>) {
    forall s :: 0 <= s < |size| ==> size[s] <= 16
  }

  lemma {:induction false} TallyAt(size: seq<nat>, s: nat)
    requires (forall s :: 0 <= s < |size| ==> size[s] <= MAX_CLEN) && s < |size| && size[s] > 0
    ensures Tally(size)[size[s]] > 0
    decreases |size|
  {
    if s < |size| - 1 { TallyAt(size[..|size| - 1], s); }
  }

  lemma {:induction false} TallyShort(size: seq<nat>)
    requires Short(size)
    ensures forall k :: 16 < k <= MAX_CLEN ==> Tally(size)[k] == 0
  {
    if size != [] { TallyShort(size[..|size| - 1]); }
  }

  // Giving up one of the longest codes costs the shorter lengths nothing.
  lemma FirstGone(before: seq<nat>, after: seq<nat>, i: nat, l: nat)
    requires OneGone(before, after, i) && l <= 16
    ensures First(after, l + 1) == First(before, l + 1) - (if i <= l then 1 else 0)
  {
    if i <= l {
      assert after[..l + 1] == before[..l + 1][i := before[i] - 1];
      SumUpdate(before[..l + 1], i, before[i] - 1);
    } else {
      assert after[..l + 1] == before[..l + 1];
    }
  }

  // Without long codes to adjust there are as many short codes in the table as the
  // optimal code has for the real symbols.
  lemma CountsKept(size: seq<nat>, bits: seq<nat>, l: nat)
    requires Short(size) && CountsFrom(size, bits) && l <= 16
    ensures |bits| == 17 && UpTo(size[..REAL], l) <= First(bits, l + 1)
  {
    hide First, Tally, LimitedBy, OneGone, TooLong;
    var steps, limited, i: nat :| LimitedBy(steps, Tally(size), limited) && OneGone(limited, bits, i);
    TallyShort(size);
    ShortStay(steps, Tally(size), limited);
    FirstGone(limited, bits, i, l);
    TallyUpTo(size, l);
    TallyAt(size, PSEUDO);
    LongestGone(limited, bits, i, size[PSEUDO]);
    assert size[..|size| - 1] == size[..REAL];
  }

  lemma LongestGone(before: seq<nat>, after: seq<nat>, i: nat, k: nat)
    requires OneGone(before, after, i) && k < |before| && before[k] > 0
    ensures k <= i && |after| == 17
  {
  }

  // No symbol has a longer code than its optimal one.
  lemma NoLongerThanOptimal(w: seq<nat>, size: seq<nat>, t: HuffTbl, v: nat, l: nat, i: nat)
    requires Built(w, size, t) && CountsFrom(size, t.bits) && Short(size)
    requires Assigned(t, v, l, i)
    ensures v < REAL && l <= size[v]
  {
    hide First, UpTo, Used, Sum, LeavesOnesFree, Listed, CountsFrom;
    var listed, p := t.huffval[..Used(w[..REAL])], Index(t.bits, l, i);
    IndexInRange(t.bits, l, i);
    assert listed[p] == v;
    PlaceBelow(size[..REAL], listed, REAL * (MAX_CLEN + 1), p);
    if size[v] < l {
      CountsKept(size, t.bits, size[v]);
      FirstMono(t.bits, size[v] + 1, l);
    }
  }

  // ---- The cost ---------------------------------------------------------------------------

  lemma {:induction false} CostBelow(w: seq<nat>, a: seq<nat>, b: seq<nat>)
    requires |w| == |a| == |b| && forall s :: 0 <= s < |w| && w[s] > 0 ==> a[s] <= b[s]
    ensures Cost(w, a) <= Cost(w, b)
  {
    if w != [] {
      var n := |w| - 1;
      CostBelow(w[..n], a[..n], b[..n]);
      CostLast(w, a);
      CostLast(w, b);
      Times(w[n], a[n], b[n]);
    }
  }

  lemma Times(x: nat, a: nat, b: nat)
    requires x > 0 ==> a <= b
    ensures x * a <= x * b
  {
  }

  lemma CostLast(w: seq<nat>, a: seq<nat>)
    requires |w| == |a| > 0
    ensures Cost(w, a) == Cost(w[..|w| - 1], a[..|w| - 1]) + w[|w| - 1] * a[|w| - 1]
  {
    assert Prods(w, a)[..|w| - 1] == Prods(w[..|w| - 1], a[..|w| - 1]);
  }

  // Lengths no longer than the optimal ones of the counted symbols, together with the
  // pseudo-symbol's, are at most as expensive as any prefix code.
  lemma NoPrefixCodeIsCheaper(w: seq<nat>, size: seq<nat>, len: seq<nat>, codes: seq<seq<bool>>)
    requires |w| == SYMBOLS && Optimal(w, size) && PrefixFree(w, codes)
    requires |len| == REAL && forall s :: 0 <= s < REAL && w[s] > 0 ==> len[s] <= size[s]
    ensures Cost(w[..REAL], len) <= Cost(w, Lengths(codes))
  {
    assert |size| == |w|;
    hide Cost, Optimal, PrefixFree, Lengths;
    OptimalAmongPrefixCodes(w, size, codes);
    CostBelow(w[..REAL], len, size[..REAL]);
    CostLast(w, size);
    assert size[..|w| - 1] == size[..REAL] && w[..|w| - 1] == w[..REAL];
  }
}
