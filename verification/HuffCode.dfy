// The canonical Huffman code that a table's counts define, and what decoding it means.
module HuffCode {
  import opened Bytes
  import opened BitString
  import opened Kraft
  import opened HuffSpace
  import opened HuffGen

  // ---- The tables both sides accept --------------------------------------------------------

  predicate WellFormed(t: HuffTbl) {
    && |t.bits| == MAX_BITS + 1 && t.bits[0] == 0
    && |t.huffval| == REAL && (forall p :: 0 <= p < REAL ==> t.huffval[p] < REAL)
  }

  // A code of at most 256 symbols in which no code is all ones.
  predicate GoodCounts(bits: seq<nat>) {
    |bits| == MAX_BITS + 1 && bits[0] == 0 && Sum(bits) <= REAL && LeavesOnesFree(bits)
  }

  // ---- The order of the codes ----------------------------------------------------------------

  // The place of the first symbol whose code has length l.
  function First(bits: seq<nat>, l: nat): nat
    requires l <= |bits|
  {
    Sum(bits[..l])
  }

  lemma FirstNext(bits: seq<nat>, l: nat)
    requires l < |bits|
    ensures First(bits, l + 1) == First(bits, l) + bits[l]
  {
    assert bits[..l + 1][..l] == bits[..l];
  }

  lemma {:induction false} FirstMono(bits: seq<nat>, l: nat, m: nat)
    requires l <= m <= |bits|
    ensures First(bits, l) <= First(bits, m)
    decreases m - l
  {
    if l < m {
      FirstMono(bits, l, m - 1);
      FirstNext(bits, m - 1);
    }
  }

  lemma FirstLast(bits: seq<nat>)
    ensures First(bits, |bits|) == Sum(bits) && First(bits, 0) == 0
  {
    assert bits[..|bits|] == bits;
  }

  // The i-th of the codes of length l.
  predicate IsCode(bits: seq<nat>, l: nat, i: nat) {
    1 <= l < |bits| && i < bits[l]
  }

  function Index(bits: seq<nat>, l: nat, i: nat): nat
    requires IsCode(bits, l, i)
  {
    First(bits, l) + i
  }

  lemma IndexInRange(bits: seq<nat>, l: nat, i: nat)
    requires IsCode(bits, l, i)
    ensures Index(bits, l, i) < First(bits, l + 1) <= Sum(bits)
  {
    FirstNext(bits, l);
    FirstMono(bits, l + 1, |bits|);
    FirstLast(bits);
  }

  lemma IndexInjective(bits: seq<nat>, l: nat, i: nat, m: nat, j: nat)
    requires IsCode(bits, l, i) && IsCode(bits, m, j) && Index(bits, l, i) == Index(bits, m, j)
    ensures l == m && i == j
  {
    hide First;
    IndexInRange(bits, l, i);
    IndexInRange(bits, m, j);
    if l < m { FirstMono(bits, l + 1, m); }
    if m < l { FirstMono(bits, m + 1, l); }
  }

  lemma {:induction false} IndexOnto(bits: seq<nat>, p: nat, m: nat) returns (l: nat, i: nat)
    requires m <= |bits| && p < First(bits, m) && |bits| > 0 && bits[0] == 0
    ensures IsCode(bits, l, i) && Index(bits, l, i) == p
    decreases m
  {
    hide Sum;
    FirstLast(bits);
    FirstNext(bits, m - 1);
    if p >= First(bits, m - 1) {
      return m - 1, p - First(bits, m - 1);
    }
    l, i := IndexOnto(bits, p, m - 1);
  }

  // ---- The codes -------------------------------------------------------------------------------

  // Codes of one length count up from twice the space taken by the shorter ones.
  function CodeValue(bits: seq<nat>, l: nat, i: nat): nat
    requires IsCode(bits, l, i)
  {
    2 * Space(bits, l - 1) + i
  }

  function Code(bits: seq<nat>, l: nat, i: nat): (c: seq<bool>)
    requires IsCode(bits, l, i)
    ensures |c| == l
  {
    Bin(CodeValue(bits, l, i), l)
  }

  lemma CodeFits(bits: seq<nat>, l: nat, i: nat)
    requires LeavesOnesFree(bits) && IsCode(bits, l, i)
    ensures CodeValue(bits, l, i) < Space(bits, l) < Pow2(l)
  {
  }

  // Annex C of ITU-T T.81: the first code is all zeros, the next one of the same length is one
  // more, and the next one that is longer is one more with zeros behind it.
  lemma FirstCode(bits: seq<nat>, l: nat, i: nat)
    requires |bits| > 0 && bits[0] == 0 && IsCode(bits, l, i) && Index(bits, l, i) == 0
    ensures CodeValue(bits, l, i) == 0
  {
    NoneBefore(bits, l);
    NoSpace(bits, l - 1);
  }

  lemma NoneBefore(bits: seq<nat>, l: nat)
    requires l <= |bits| && First(bits, l) == 0
    ensures forall k :: 0 <= k < l ==> bits[k] == 0
  {
    forall k | 0 <= k < l ensures bits[k] == 0 { SumUpdate(bits[..l], k, 0); }
  }

  lemma NextCode(bits: seq<nat>, l: nat, i: nat, m: nat, j: nat)
    requires IsCode(bits, l, i) && IsCode(bits, m, j) && Index(bits, m, j) == Index(bits, l, i) + 1
    ensures l <= m && CodeValue(bits, m, j) == (CodeValue(bits, l, i) + 1) * Pow2(m - l)
  {
    hide First, Space;
    IndexInRange(bits, l, i);
    IndexInRange(bits, m, j);
    if m < l { FirstMono(bits, m + 1, l); }
    if l < m {
      FirstMono(bits, l + 1, m);
      FirstNext(bits, l);
      NoneBetween(bits, l + 1, m);
      SpaceGrows(bits, l, m - 1);
      SpaceNext(bits, l);
      assert Pow2(m - l) == 2 * Pow2(m - 1 - l);
      Twice(Space(bits, l), Pow2(m - 1 - l));
    }
  }

  lemma Twice(x: nat, y: nat)
    ensures 2 * (x * y) == x * (2 * y)
  {
  }

  lemma NoneBetween(bits: seq<nat>, a: nat, b: nat)
    requires a <= b <= |bits| && First(bits, a) == First(bits, b)
    ensures forall k :: a <= k < b ==> bits[k] == 0
  {
    hide First;
    forall k | a <= k < b ensures bits[k] == 0 {
      FirstMono(bits, a, k);
      FirstNext(bits, k);
      FirstMono(bits, k + 1, b);
    }
  }

  lemma {:induction false} SpaceGrows(bits: seq<nat>, l: nat, m: nat)
    requires l <= m < |bits| && forall k :: l < k <= m ==> bits[k] == 0
    ensures Space(bits, m) == Space(bits, l) * Pow2(m - l)
    decreases m
  {
    if l < m {
      SpaceGrows(bits, l, m - 1);
      Twice(Space(bits, l), Pow2(m - 1 - l));
    }
  }

  // The beginnings of a longer code lie above all codes that are as short as they are.
  lemma {:induction false} LaterAbove(bits: seq<nat>, s: seq<bool>, l: nat, m: nat)
    requires 0 < l < m < |bits| && |s| == m && Num(s) >= 2 * Space(bits, m - 1)
    ensures Num(s[..l]) >= Space(bits, l)
    decreases m
  {
    assert Num(s) == 2 * Num(s[..m - 1]) + Bit(s[m - 1]);
    if l + 1 < m {
      assert Space(bits, m - 1) >= 2 * Space(bits, m - 2);
      LaterAbove(bits, s[..m - 1], l, m - 1);
      assert s[..m - 1][..l] == s[..l];
    }
  }

  // No code is the beginning of another.
  lemma PrefixFreeCodes(bits: seq<nat>, l: nat, i: nat, m: nat, j: nat)
    requires LeavesOnesFree(bits) && IsCode(bits, l, i) && IsCode(bits, m, j)
    requires Code(bits, l, i) <= Code(bits, m, j)
    ensures l == m && i == j
  {
    hide Space;
    CodeFits(bits, l, i);
    CodeFits(bits, m, j);
    NumBin(CodeValue(bits, l, i), l);
    NumBin(CodeValue(bits, m, j), m);
    assert Code(bits, m, j)[..l] == Code(bits, l, i);
    if l < m {
      LaterAbove(bits, Code(bits, m, j), l, m);
    } else {
      assert Code(bits, m, j)[..l] == Code(bits, m, j);
    }
  }

  // ---- What a bit string decodes to ---------------------------------------------------------------

  // Decoding gives up after 17 bits, one more than the longest code has.
  const GIVE_UP := 17

  datatype Decoded = Decoded(value: nat, rest: seq<bool>)
  datatype Option<T> = Some(value: T) | None

  // The first length from l on at which s is below the end of the codes of that
  // length; zero when s is too short to say.
  function CodeLength(bits: seq<nat>, s: seq<bool>, l: nat): (n: nat)
    requires |bits| == MAX_BITS + 1 && 1 <= l <= GIVE_UP
    ensures n == 0 || (l <= n <= GIVE_UP && n <= |s|)
    decreases GIVE_UP - l
  {
    if l > |s| then 0
    else if l == GIVE_UP then l
    else if bits[l] > 0 && Num(s[..l]) < Space(bits, l) then l
    else CodeLength(bits, s, l + 1)
  }

  // Neither length nor any below it, from the first on, has a code that begins s.
  predicate NoneUpTo(bits: seq<nat>, s: seq<bool>, l: nat) {
    l < |bits| && (l <= |s| ==> Num(s[..l]) >= Space(bits, l))
  }

  lemma NoneUpToNext(bits: seq<nat>, s: seq<bool>, l: nat)
    requires |bits| == MAX_BITS + 1 && NoneUpTo(bits, s, l) && l + 1 < |bits|
    requires l + 1 <= |s| ==> bits[l + 1] == 0 || Num(s[..l + 1]) >= Space(bits, l + 1)
    ensures NoneUpTo(bits, s, l + 1)
  {
    if l + 1 <= |s| {
      assert s[..l + 1][..l] == s[..l];
    }
  }

  predicate HeadIsCode(bits: seq<nat>, s: seq<bool>, n: nat) {
    && 1 <= n < |bits| && n <= |s|
    && 2 * Space(bits, n - 1) <= Num(s[..n]) < Space(bits, n)
    && IsCode(bits, n, Num(s[..n]) - 2 * Space(bits, n - 1))
    && Code(bits, n, Num(s[..n]) - 2 * Space(bits, n - 1)) == s[..n]
  }

  lemma SpaceNext(bits: seq<nat>, l: nat)
    requires 1 <= l < |bits|
    ensures Space(bits, l) == 2 * Space(bits, l - 1) + bits[l]
  {
  }

  lemma NumNext(s: seq<bool>, l: nat)
    requires 1 <= l <= |s|
    ensures Num(s[..l]) == 2 * Num(s[..l - 1]) + Bit(s[l - 1])
  {
    assert s[..l][..l - 1] == s[..l - 1];
  }

  lemma FirstBelow(bits: seq<nat>, s: seq<bool>, l: nat)
    requires 1 <= l < |bits| && l <= |s| && NoneUpTo(bits, s, l - 1) && bits[l] > 0 && Num(s[..l]) < Space(bits, l)
    ensures HeadIsCode(bits, s, l)
  {
    hide Space, Num, Bin;
    SpaceNext(bits, l);
    NumNext(s, l);
    BinNum(s[..l]);
  }

  // A length found is that of a code of the table.
  lemma {:induction false} FoundCode(bits: seq<nat>, s: seq<bool>, l: nat)
    requires |bits| == MAX_BITS + 1 && 1 <= l <= GIVE_UP && NoneUpTo(bits, s, l - 1)
    ensures 0 < CodeLength(bits, s, l) < GIVE_UP ==> HeadIsCode(bits, s, CodeLength(bits, s, l))
    decreases GIVE_UP - l
  {
    hide Space, Num, HeadIsCode, NoneUpTo;
    if l <= |s| && l < GIVE_UP {
      if bits[l] > 0 && Num(s[..l]) < Space(bits, l) {
        FirstBelow(bits, s, l);
      } else {
        NoneUpToNext(bits, s, l - 1);
        FoundCode(bits, s, l + 1);
      }
    }
  }

  lemma NoneUpToZero(bits: seq<nat>, s: seq<bool>)
    requires |bits| > 0 && bits[0] == 0
    ensures NoneUpTo(bits, s, 0)
  {
    assert s[..0] == [];
  }

  // The symbol at the head of s, and what is left. A string that begins with no
  // code gives the symbol 0 and costs 17 bits.
  function DecodeSym(t: HuffTbl, s: seq<bool>): (r: Option<Decoded>)
    requires WellFormed(t)
  {
    var n := CodeLength(t.bits, s, 1);
    if n == 0 then None
    else if n == GIVE_UP then Some(Decoded(0, s[n..]))
    else
      var p := First(t.bits, n) + Num(s[..n]) - 2 * Space(t.bits, n - 1);
      Some(Decoded(if 0 <= p < REAL then t.huffval[p] else 0, s[n..]))
  }

  // Symbol v has the i-th code of length l.
  predicate Assigned(t: HuffTbl, v: nat, l: nat, i: nat) {
    WellFormed(t) && IsCode(t.bits, l, i) && Index(t.bits, l, i) < REAL && t.huffval[Index(t.bits, l, i)] == v
  }

  // The search stops at the right length when s begins with a code.
  lemma {:induction false} SearchStops(bits: seq<nat>, l: nat, i: nat, tail: seq<bool>, k: nat)
    requires |bits| == MAX_BITS + 1 && LeavesOnesFree(bits) && IsCode(bits, l, i) && 1 <= k <= l
    ensures CodeLength(bits, Code(bits, l, i) + tail, k) == l
    decreases l - k
  {
    var c := Code(bits, l, i);
    var s := c + tail;
    CodeFits(bits, l, i);
    NumBin(CodeValue(bits, l, i), l);
    assert s[..l] == c;
    if k < l {
      LaterAbove(bits, c, k, l);
      assert s[..k] == c[..k];
      SearchStops(bits, l, i, tail, k + 1);
    }
  }

  // Decoding is the inverse of encoding.
  lemma DecodesCode(t: HuffTbl, v: nat, l: nat, i: nat, tail: seq<bool>)
    requires GoodCounts(t.bits) && Assigned(t, v, l, i)
    ensures DecodeSym(t, Code(t.bits, l, i) + tail) == Some(Decoded(v, tail))
  {
    hide Space, First, LeavesOnesFree;
    var c := Code(t.bits, l, i);
    SearchStops(t.bits, l, i, tail, 1);
    CodeFits(t.bits, l, i);
    NumBin(CodeValue(t.bits, l, i), l);
    assert (c + tail)[..l] == c && (c + tail)[l..] == tail;
  }

  // And it finds nothing but codes of the table: what it does not reject it has read.
  lemma DecodedIsCode(t: HuffTbl, s: seq<bool>) returns (l: nat, i: nat)
    requires WellFormed(t) && GoodCounts(t.bits)
    requires var n := CodeLength(t.bits, s, 1); 0 < n < GIVE_UP
    ensures IsCode(t.bits, l, i) && Assigned(t, DecodeSym(t, s).value.value, l, i)
    ensures DecodeSym(t, s).Some? && s == Code(t.bits, l, i) + DecodeSym(t, s).value.rest
  {
    hide Space, First, LeavesOnesFree, Bin, Num;
    l := CodeLength(t.bits, s, 1);
    NoneUpToZero(t.bits, s);
    FoundCode(t.bits, s, 1);
    i := Num(s[..l]) - 2 * Space(t.bits, l - 1);
    IndexInRange(t.bits, l, i);
    assert s == s[..l] + s[l..];
  }
}
