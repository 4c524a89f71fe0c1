// jpeg_make_c_derived_tbl and jpeg_make_d_derived_tbl: the tables the encoder and
// the decoder work from, and the checks that guard them.
module HuffDerived {
  import opened Bytes
  import opened BitString
  import opened Kraft
  import opened HuffSpace
  import opened HuffGen
  import opened HuffCode

  // ---- Figure C.1: the length of each code -----------------------------------------------------

  predicate SizeAt(bits: seq<nat>, p: nat, l: nat) {
    1 <= l < |bits| && First(bits, l) <= p < First(bits, l + 1)
  }

  lemma SizeUnique(bits: seq<nat>, p: nat, l: nat, m: nat)
    requires SizeAt(bits, p, l) && SizeAt(bits, p, m)
    ensures l == m
  {
    hide First;
    if l < m { FirstMono(bits, l + 1, m); }
    if m < l { FirstMono(bits, m + 1, l); }
  }

  predicate Sized(bits: seq<nat>, size: seq<nat>, n: nat) {
    n <= |size| && forall p :: 0 <= p < n ==> SizeAt(bits, p, size[p])
  }

  method CodeSizes(bits: seq<nat>, huffsize: array<nat>) returns (r: Result<nat>)
    requires |bits| == MAX_BITS + 1 && bits[0] == 0 && huffsize.Length == REAL + 1
    modifies huffsize
    ensures r.Ok? <==> Sum(bits) <= REAL
    ensures r.Ok? ==> r.value == Sum(bits) && Sized(bits, huffsize[..], r.value) && huffsize[r.value] == 0
  {
    hide First;
    var p: nat := 0;
    var l := 1;
    FirstLast(bits);
    FirstNext(bits, 0);
    while l <= MAX_BITS
      invariant 1 <= l <= MAX_BITS + 1 && p == First(bits, l) <= REAL
      invariant Sized(bits, huffsize[..], p)
    {
      var i := bits[l];
      FirstNext(bits, l);
      if p + i > REAL {
        FirstMono(bits, l + 1, |bits|);
        return Err;
      }
      while i > 0
        invariant 0 <= i && p + i == First(bits, l + 1) <= REAL && First(bits, l) <= p
        invariant Sized(bits, huffsize[..], p)
      {
        i := i - 1;
        huffsize[p] := l;
        p := p + 1;
      }
      l := l + 1;
    }
    huffsize[p] := 0;
    r := Ok(p);
  }

  // ---- Figure C.2: the codes themselves ------------------------------------------------------------

  predicate Coded(bits: seq<nat>, size: seq<nat>, code: seq<nat>, n: nat) {
    && n <= |size| && n <= |code|
    && (forall p :: 0 <= p < n ==> CodedAt(bits, p, size[p], code[p]))
  }

  predicate CodedAt(bits: seq<nat>, p: nat, l: nat, c: nat) {
    SizeAt(bits, p, l) && c == 2 * Space(bits, l - 1) + p - First(bits, l)
  }

  lemma SizeNotBelow(bits: seq<nat>, p: nat, l: nat, si: nat)
    requires SizeAt(bits, p, l) && si <= |bits| && First(bits, si) <= p
    ensures si <= l
  {
    hide First;
    if l < si { FirstMono(bits, l + 1, si); }
  }

  lemma NothingBefore(bits: seq<nat>, si: nat)
    requires 1 <= si <= |bits| && First(bits, si) == 0
    ensures Space(bits, si - 1) == 0 && forall m :: 0 <= m < si ==> Space(bits, m) < Pow2(m)
  {
    forall m | 0 <= m < si ensures Space(bits, m) == 0 {
      forall k | 0 <= k <= m ensures bits[k] == 0 { SumUpdate(bits[..si], k, 0); }
      NoSpace(bits, m);
    }
  }

  lemma NothingAfter(bits: seq<nat>, si: nat)
    requires 1 <= si <= |bits| && First(bits, si) == Sum(bits) && forall m :: 0 <= m < si ==> Space(bits, m) < Pow2(m)
    ensures LeavesOnesFree(bits)
  {
    hide Space, First;
    FirstLast(bits);
    forall k | si - 1 < k < |bits| ensures bits[k] == 0 {
      FirstMono(bits, si, k);
      FirstNext(bits, k);
      FirstMono(bits, k + 1, |bits|);
    }
    forall m | 0 <= m < |bits| ensures Space(bits, m) < Pow2(m) {
      if m >= si { NotFullAfter(bits, m, si - 1); }
    }
  }

  method AssignCodes(bits: seq<nat>, huffsize: array<nat>, huffcode: array<nat>, n: nat) returns (ok: bool)
    requires |bits| == MAX_BITS + 1 && bits[0] == 0 && huffsize != huffcode
    requires huffsize.Length == huffcode.Length == REAL + 1 && n == Sum(bits) <= REAL
    requires Sized(bits, huffsize[..], n) && huffsize[n] == 0
    modifies huffcode
    ensures ok <==> LeavesOnesFree(bits)
    ensures ok ==> Coded(bits, huffsize[..], huffcode[..], n)
  {
    hide First, Space, Sum, Pow2, LeavesOnesFree;
    var code: nat := 0;
    var si := huffsize[0];
    var p := 0;
    FirstLast(bits);
    if n == 0 {
      NothingBefore(bits, |bits|);
      NothingAfter(bits, |bits|);
    } else {
      FirstMono(bits, 0, si);
      NothingBefore(bits, si);
    }
    while huffsize[p] != 0
      invariant 0 <= p <= n
      invariant n > 0 ==> 1 <= si <= MAX_BITS + 1 && p == First(bits, si) && code == 2 * Space(bits, si - 1)
      invariant n > 0 ==> forall m :: 0 <= m < si ==> Space(bits, m) < Pow2(m)
      invariant Coded(bits, huffsize[..], huffcode[..], p)
      decreases MAX_BITS + 1 - si
    {
      SizeNotBelow(bits, p, huffsize[p], si);
      FirstNext(bits, si);
      SpaceNext(bits, si);
      FirstMono(bits, si + 1, |bits|);
      p, code := CodesOfLength(bits, huffsize, huffcode, n, p, si, code);
      if code >= Pow2(si) {
        assert !LeavesOnesFree(bits) by { TooManyCodes(bits, si); }
        return false;
      }
      code := 2 * code;
      si := si + 1;
    }
    if n > 0 { NothingAfter(bits, si); }
    ok := true;
  }

  lemma TooManyCodes(bits: seq<nat>, m: nat)
    requires m < |bits| && Space(bits, m) >= Pow2(m)
    ensures !LeavesOnesFree(bits)
  {
  }

  // The inner loop: all the codes of length si.
  method CodesOfLength(bits: seq<nat>, huffsize: array<nat>, huffcode: array<nat>, n: nat, p0: nat, si: nat, code0: nat)
    returns (p: nat, code: nat)
    requires |bits| == MAX_BITS + 1 && 1 <= si <= MAX_BITS && huffsize != huffcode
    requires huffsize.Length == huffcode.Length == REAL + 1 && n <= REAL
    requires Sized(bits, huffsize[..], n) && huffsize[n] == 0 && Coded(bits, huffsize[..], huffcode[..], p0)
    requires p0 == First(bits, si) && First(bits, si + 1) == p0 + bits[si] <= n && code0 == 2 * Space(bits, si - 1)
    modifies huffcode
    ensures p == First(bits, si + 1) && code == code0 + bits[si]
    ensures Coded(bits, huffsize[..], huffcode[..], p)
  {
    hide First, Space;
    p, code := p0, code0;
    while huffsize[p] == si
      invariant p0 <= p <= p0 + bits[si] && code == code0 + p - p0
      invariant Coded(bits, huffsize[..], huffcode[..], p)
      decreases n - p
    {
      assert p < n && SizeAt(bits, p, si);
      huffcode[p] := code;
      p := p + 1;
      code := code + 1;
    }
    if p < p0 + bits[si] {
      SizeUnique(bits, p, si, huffsize[p]);
    }
  }

  // ---- Figure C.3: the encoder's tables ---------------------------------------------------------------

  // Code and length by symbol; length zero means that a symbol has no code.
  datatype CTbl = CTbl(ehufco: seq<nat>, ehufsi: seq<nat>)

  function MaxSymbol(isDC: bool): nat { if isDC then 15 else 255 }

  // Distinct symbols in the range allowed.
  predicate SymbolsGood(isDC: bool, v: seq<nat>) {
    && (forall p :: 0 <= p < |v| ==> v[p] <= MaxSymbol(isDC))
    && (forall p, q :: 0 <= p < q < |v| ==> v[p] != v[q])
  }

  // What the encoder demands of a table.
  predicate EncoderAccepts(isDC: bool, t: HuffTbl) {
    && GoodCounts(t.bits) && |t.huffval| == REAL
    && SymbolsGood(isDC, t.huffval[..Sum(t.bits)])
  }

  // The tables give every listed symbol its own code, and no other symbol any.
  ghost predicate EncodesWith(t: HuffTbl, c: CTbl) {
    && |c.ehufco| == |c.ehufsi| == REAL
    && (forall v: nat, l: nat, i: nat ::
        Assigned(t, v, l, i) ==> c.ehufsi[v] == l && c.ehufco[v] == CodeValue(t.bits, l, i))
    && (forall v :: 0 <= v < REAL && c.ehufsi[v] > 0 ==> exists l: nat, i: nat :: Assigned(t, v, l, i))
  }

  // The tables hold the codes of the first n symbols listed.
  predicate Entered(t: HuffTbl, c: CTbl, n: nat) {
    && |c.ehufco| == |c.ehufsi| == |t.huffval| == REAL && n <= REAL
    && (forall p ::
        0 <= p < n ==> t.huffval[p] < REAL && CodedAt(t.bits, p, c.ehufsi[t.huffval[p]], c.ehufco[t.huffval[p]]))
    && (forall v :: 0 <= v < REAL && c.ehufsi[v] > 0 ==> v in t.huffval[..n])
  }

  lemma EnteredMeans(t: HuffTbl, c: CTbl)
    requires WellFormed(t) && Sum(t.bits) <= REAL && Entered(t, c, Sum(t.bits))
    ensures EncodesWith(t, c)
  {
    hide First, Space, Sum;
    forall v: nat, l: nat, i: nat | Assigned(t, v, l, i) ensures c.ehufsi[v] == l
        && c.ehufco[v] == CodeValue(t.bits, l, i) {
      IndexInRange(t.bits, l, i);
      SizeUnique(t.bits, Index(t.bits, l, i), l, c.ehufsi[v]);
    }
    forall v | 0 <= v < REAL && c.ehufsi[v] > 0 ensures exists l: nat, i: nat :: Assigned(t, v, l, i) {
      var p :| 0 <= p < Sum(t.bits) && t.huffval[p] == v;
      FirstLast(t.bits);
      var l, i := IndexOnto(t.bits, p, |t.bits|);
      assert Assigned(t, v, l, i);
    }
  }

  lemma EnterOne(t: HuffTbl, c: CTbl, n: nat, l: nat, code: nat)
    requires Entered(t, c, n) && n < REAL && t.huffval[n] < REAL && c.ehufsi[t.huffval[n]] == 0
        && CodedAt(t.bits, n, l, code)
    ensures Entered(t, CTbl(c.ehufco[t.huffval[n] := code], c.ehufsi[t.huffval[n] := l]), n + 1)
  {
    hide CodedAt, First;
    var v := t.huffval[n];
    var d := CTbl(c.ehufco[v := code], c.ehufsi[v := l]);
    forall p | 0 <= p < n ensures t.huffval[p] != v {
      Occupied(t, c, n, p);
    }
    assert t.huffval[..n + 1] == t.huffval[..n] + [v];
  }

  lemma Occupied(t: HuffTbl, c: CTbl, n: nat, p: nat)
    requires Entered(t, c, n) && p < n
    ensures t.huffval[p] < REAL && c.ehufsi[t.huffval[p]] > 0
  {
  }

  lemma NoneTwice(t: HuffTbl, c: CTbl, n: nat)
    requires Entered(t, c, n) && n < REAL && t.huffval[n] < REAL && c.ehufsi[t.huffval[n]] == 0
    ensures forall p :: 0 <= p < n ==> t.huffval[p] != t.huffval[n]
  {
    forall p | 0 <= p < n ensures t.huffval[p] != t.huffval[n] { Occupied(t, c, n, p); }
  }

  method EnterSymbols(isDC: bool, t: HuffTbl, huffsize: array<nat>, huffcode: array<nat>, lastp: nat)
      returns (r: Result<CTbl>)
    requires WellFormed(t) && huffsize.Length == huffcode.Length == REAL + 1 && lastp <= REAL
    requires Coded(t.bits, huffsize[..], huffcode[..], lastp)
    ensures r.Ok? <==> SymbolsGood(isDC, t.huffval[..lastp])
    ensures r.Ok? ==> Entered(t, r.value, lastp)
  {
    hide CodedAt, Entered;
    var ehufco, ehufsi := new nat[REAL](_ => 0), new nat[REAL](_ => 0);
    NothingEntered(t, CTbl(ehufco[..], ehufsi[..]));
    var p := 0;
    while p < lastp
      invariant 0 <= p <= lastp
      invariant Entered(t, CTbl(ehufco[..], ehufsi[..]), p)
      invariant SymbolsGood(isDC, t.huffval[..p])
    {
      var i := t.huffval[p];
      if i > MaxSymbol(isDC) || ehufsi[i] != 0 {
        Rejected(isDC, t, CTbl(ehufco[..], ehufsi[..]), p, lastp);
        return Err;
      }
      NoneTwice(t, CTbl(ehufco[..], ehufsi[..]), p);
      EnterOne(t, CTbl(ehufco[..], ehufsi[..]), p, huffsize[p], huffcode[p]);
      ghost var co, si := ehufco[..][i := huffcode[p]], ehufsi[..][i := huffsize[p]];
      ehufco[i] := huffcode[p];
      ehufsi[i] := huffsize[p];
      assert ehufco[..] == co && ehufsi[..] == si;
      assert t.huffval[..p + 1] == t.huffval[..p] + [i];
      p := p + 1;
    }
    r := Ok(CTbl(ehufco[..], ehufsi[..]));
  }

  lemma NothingEntered(t: HuffTbl, c: CTbl)
    requires |c.ehufco| == |c.ehufsi| == |t.huffval| == REAL && forall v :: 0 <= v < REAL ==> c.ehufsi[v] == 0
    ensures Entered(t, c, 0)
  {
  }

  lemma Rejected(isDC: bool, t: HuffTbl, c: CTbl, p: nat, n: nat)
    requires WellFormed(t) && Entered(t, c, p) && p < n <= REAL
    requires t.huffval[p] > MaxSymbol(isDC) || c.ehufsi[t.huffval[p]] != 0
    ensures !SymbolsGood(isDC, t.huffval[..n])
  {
    hide CodedAt;
    var v := t.huffval[..n];
    assert v[p] == t.huffval[p];
    if c.ehufsi[v[p]] != 0 {
      var q :| 0 <= q < p && t.huffval[..p][q] == v[p];
      assert v[q] == v[p];
    }
  }

  method MakeCDerivedTbl(isDC: bool, t: HuffTbl) returns (r: Result<CTbl>)
    requires WellFormed(t)
    ensures r.Ok? <==> EncoderAccepts(isDC, t)
    ensures r.Ok? ==> EncodesWith(t, r.value)
  {
    hide First, Space, Sum, Pow2, LeavesOnesFree, Coded, Sized, Entered, EncodesWith, SymbolsGood;
    var huffsize, huffcode := new nat[REAL + 1](_ => 0), new nat[REAL + 1](_ => 0);
    var sizes := CodeSizes(t.bits, huffsize);
    if sizes.Err? {
      return Err;
    }
    var coded := AssignCodes(t.bits, huffsize, huffcode, sizes.value);
    if !coded {
      return Err;
    }
    r := EnterSymbols(isDC, t, huffsize, huffcode, sizes.value);
    if r.Ok? {
      EnteredMeans(t, r.value);
    }
  }

  // A table that has been built from counts passes the encoder's checks, and gives
  // every symbol counted a code.
  lemma BuiltIsAccepted(isDC: bool, w: seq<nat>, size: seq<nat>, t: HuffTbl)
    requires Built(w, size, t) && forall s :: 0 <= s < REAL && w[s] > 0 ==> s <= MaxSymbol(isDC)
    ensures WellFormed(t) && EncoderAccepts(isDC, t)
    ensures forall v :: 0 <= v < REAL && w[v] > 0 ==> v in t.huffval[..Sum(t.bits)]
  {
    hide Sum, LeavesOnesFree, Used;
    var listed := t.huffval[..Sum(t.bits)];
    forall p, q | 0 <= p < q < |listed| ensures listed[p] != listed[q] {
      assert Key(size[..REAL], listed[p]) < Key(size[..REAL], listed[q]);
    }
    forall p | 0 <= p < |listed| ensures listed[p] <= MaxSymbol(isDC) {
      assert listed[p] in listed;
    }
  }

  lemma ListedHaveCodes(t: HuffTbl, c: CTbl, v: nat)
    requires WellFormed(t) && GoodCounts(t.bits) && EncodesWith(t, c) && v in t.huffval[..Sum(t.bits)]
    ensures v < REAL && c.ehufsi[v] > 0
  {
    hide Sum, LeavesOnesFree;
    var p :| 0 <= p < Sum(t.bits) && t.huffval[..Sum(t.bits)][p] == v;
    FirstLast(t.bits);
    var l, i := IndexOnto(t.bits, p, |t.bits|);
    assert Assigned(t, v, l, i);
  }

  // ---- Figure F.15: the decoder's tables ------------------------------------------------------------------

  const LOOKAHEAD := 8
  const SENTINEL := 0xF_FFFF

  datatype DTbl = DTbl(maxcode: seq<int>, valoffset: seq<int>, lookNbits: seq<nat>, lookSym: seq<nat>, pub: HuffTbl)

  predicate BoundsAt(bits: seq<nat>, l: nat, maxcode: int, valoffset: int)
    requires 1 <= l < |bits|
  {
    if bits[l] > 0 then maxcode == Space(bits, l) - 1 && valoffset == First(bits, l) - 2 * Space(bits, l - 1)
    else maxcode == -1
  }

  // The largest code of each length, and where its symbols are.
  predicate Bounds(bits: seq<nat>, maxcode: seq<int>, valoffset: seq<int>, n: nat) {
    && |maxcode| == MAX_BITS + 2 && |valoffset| == MAX_BITS + 1 && n <= |bits| == MAX_BITS + 1
    && forall l :: 1 <= l < n ==> BoundsAt(bits, l, maxcode[l], valoffset[l])
  }

  method CodeBounds(bits: seq<nat>, huffcode: array<nat>, ghost size: seq<nat>, n: nat)
    returns (maxcode: array<int>, valoffset: array<int>)
    requires |bits| == MAX_BITS + 1 && bits[0] == 0 && huffcode.Length == REAL + 1 && n == Sum(bits) <= REAL
    requires Coded(bits, size, huffcode[..], n)
    ensures maxcode.Length == MAX_BITS + 2 && valoffset.Length == MAX_BITS + 1
    ensures Bounds(bits, maxcode[..], valoffset[..], MAX_BITS + 1) && maxcode[GIVE_UP] == SENTINEL
  {
    hide First, Space, Sum, Coded;
    maxcode := new int[MAX_BITS + 2];
    valoffset := new int[MAX_BITS + 1];
    var p := 0;
    var l := 1;
    FirstLast(bits);
    FirstNext(bits, 0);
    while l <= MAX_BITS
      invariant 1 <= l <= MAX_BITS + 1 && p == First(bits, l)
      invariant Bounds(bits, maxcode[..], valoffset[..], l)
    {
      FirstNext(bits, l);
      FirstMono(bits, l + 1, |bits|);
      SpaceNext(bits, l);
      if bits[l] != 0 {
        CodeOfIndex(bits, size, huffcode[..], n, l, p);
        CodeOfIndex(bits, size, huffcode[..], n, l, p + bits[l] - 1);
        valoffset[l] := p - huffcode[p];
        p := p + bits[l];
        maxcode[l] := huffcode[p - 1];
      } else {
        maxcode[l] := -1;
      }
      l := l + 1;
    }
    maxcode[GIVE_UP] := SENTINEL;
  }

  lemma CodeOfIndex(bits: seq<nat>, size: seq<nat>, code: seq<nat>, n: nat, l: nat, p: nat)
    requires Coded(bits, size, code, n) && p < n && SizeAt(bits, p, l)
    ensures code[p] == 2 * Space(bits, l - 1) + p - First(bits, l)
  {
    hide First, Space;
    SizeUnique(bits, p, l, size[p]);
  }

  // ---- The lookahead table -------------------------------------------------------------------------------------

  // The place of the code that begins the eight bits of b, or -1 when it is longer.
  function Slot(bits: seq<nat>, b: nat): int
    requires |bits| == MAX_BITS + 1
  {
    var s := Bin(b, LOOKAHEAD);
    var l := CodeLength(bits, s, 1);
    if l == 0 then -1 else First(bits, l) + Num(s[..l]) - 2 * Space(bits, l - 1)
  }

  // The entry for b once the first n codes have been entered.
  predicate LookAt(t: HuffTbl, b: nat, n: nat, nbits: nat, sym: nat)
    requires WellFormed(t)
  {
    var p := Slot(t.bits, b);
    if 0 <= p < n && p < REAL then nbits == CodeLength(t.bits, Bin(b, LOOKAHEAD), 1) && sym == t.huffval[p]
    else nbits == 0
  }

  predicate Looks(t: HuffTbl, nbits: seq<nat>, sym: seq<nat>, n: nat)
    requires WellFormed(t)
  {
    |nbits| == |sym| == REAL && forall b :: 0 <= b < REAL ==> LookAt(t, b, n, nbits[b], sym[b])
  }

  lemma SlotCode(bits: seq<nat>, l: nat, i: nat, b: nat)
    requires |bits| == MAX_BITS + 1 && bits[0] == 0 && IsCode(bits, l, i) && l <= LOOKAHEAD
    requires Slot(bits, b) == Index(bits, l, i)
    ensures CodeLength(bits, Bin(b, LOOKAHEAD), 1) == l && Bin(b, LOOKAHEAD)[..l] == Code(bits, l, i)
  {
    hide First, Space, Bin, Num, LeavesOnesFree;
    var s := Bin(b, LOOKAHEAD);
    var m := CodeLength(bits, s, 1);
    NoneUpToZero(bits, s);
    FoundCode(bits, s, 1);
    var j := Num(s[..m]) - 2 * Space(bits, m - 1);
    IndexInjective(bits, l, i, m, j);
  }

  lemma SlotIsCode(bits: seq<nat>, l: nat, i: nat, b: nat)
    requires |bits| == MAX_BITS + 1 && bits[0] == 0 && LeavesOnesFree(bits) && IsCode(bits, l, i) && l <= LOOKAHEAD
        && b < REAL
    requires Slot(bits, b) == Index(bits, l, i)
    ensures CodeValue(bits, l, i) * Pow2(LOOKAHEAD - l) <= b < (CodeValue(bits, l, i) + 1) * Pow2(LOOKAHEAD - l)
    ensures CodeLength(bits, Bin(b, LOOKAHEAD), 1) == l
  {
    hide First, Space, Bin, Num, LeavesOnesFree, CodeLength, Slot, CodeValue;
    var s := Bin(b, LOOKAHEAD);
    SlotCode(bits, l, i, b);
    assert s == s[..l] + s[l..];
    NumConcat(s[..l], s[l..]);
    NumBound(s[l..]);
    Pow2Table();
    NumBin(b, LOOKAHEAD);
    CodeFits(bits, l, i);
    NumBin(CodeValue(bits, l, i), l);
    Between(CodeValue(bits, l, i), Pow2(LOOKAHEAD - l), Num(s[l..]));
  }

  lemma Between(x: nat, p: nat, y: nat)
    requires y < p
    ensures x * p <= x * p + y < (x + 1) * p
  {
  }

  // The bytes that begin with the code at place p are the ones from its
  // left-justified value on, as many as the remaining bits allow.
  lemma SlotRange(bits: seq<nat>, l: nat, i: nat, b: nat)
    requires |bits| == MAX_BITS + 1 && bits[0] == 0 && LeavesOnesFree(bits) && IsCode(bits, l, i) && l <= LOOKAHEAD
        && b < REAL
    ensures Slot(bits, b) == Index(bits, l, i) <==>
              CodeValue(bits, l, i) * Pow2(LOOKAHEAD - l) <= b < (CodeValue(bits, l, i) + 1) * Pow2(LOOKAHEAD - l)
    ensures Slot(bits, b) == Index(bits, l, i) ==> CodeLength(bits, Bin(b, LOOKAHEAD), 1) == l
  {
    hide First, Space, Bin, Num, LeavesOnesFree;
    var s, c, k := Bin(b, LOOKAHEAD), CodeValue(bits, l, i), LOOKAHEAD - l;
    if c * Pow2(k) <= b < (c + 1) * Pow2(k) {
      BinJoin(c, l, b - c * Pow2(k), k);
      SearchStops(bits, l, i, Bin(b - c * Pow2(k), k), 1);
      assert s[..l] == Code(bits, l, i);
      CodeFits(bits, l, i);
      NumBin(c, l);
    } else if Slot(bits, b) == Index(bits, l, i) {
      SlotIsCode(bits, l, i, b);
    }
  }

  lemma LookEntered(t: HuffTbl, l: nat, i: nat, b: nat, nbits: nat, sym: nat, nbits': nat, sym': nat)
    requires WellFormed(t) && LeavesOnesFree(t.bits) && IsCode(t.bits, l, i) && l <= LOOKAHEAD && b < REAL
    requires Index(t.bits, l, i) < REAL && LookAt(t, b, Index(t.bits, l, i), nbits, sym)
    requires var w, c := Pow2(LOOKAHEAD - l), CodeValue(t.bits, l, i);
             if c * w <= b < (c + 1) * w then nbits' == l && sym' == t.huffval[Index(t.bits, l, i)]
             else nbits' == nbits && sym' == sym
    ensures LookAt(t, b, Index(t.bits, l, i) + 1, nbits', sym')
  {
    hide First, Space, Bin, Num, LeavesOnesFree, Slot, CodeLength;
    SlotRange(t.bits, l, i, b);
  }

  // Fills in all entries that begin with the i-th code of length l.
  method EnterLook(t: HuffTbl, lookNbits: array<nat>, lookSym: array<nat>, l: nat, code: nat, sym: nat, ghost i: nat)
    requires WellFormed(t) && LeavesOnesFree(t.bits) && IsCode(t.bits, l, i) && 1 <= l <= LOOKAHEAD
    requires lookNbits.Length == lookSym.Length == REAL && lookNbits != lookSym
    requires Index(t.bits, l, i) < REAL && Looks(t, lookNbits[..], lookSym[..], Index(t.bits, l, i))
    requires code == CodeValue(t.bits, l, i) && sym == t.huffval[Index(t.bits, l, i)]
    modifies lookNbits, lookSym
    ensures Looks(t, lookNbits[..], lookSym[..], Index(t.bits, l, i) + 1)
  {
    hide First, Space, LeavesOnesFree, LookAt, Pow2;
    ghost var nbits0, sym0 := lookNbits[..], lookSym[..];
    var lookbits := code * Pow2(LOOKAHEAD - l);
    var ctr := Pow2(LOOKAHEAD - l);
    ghost var end := (code + 1) * Pow2(LOOKAHEAD - l);
    LookRange(t.bits, l, i);
    while ctr > 0
      invariant 0 <= ctr && lookbits + ctr == end <= REAL && code * Pow2(LOOKAHEAD - l) <= lookbits
      invariant forall b :: 0 <= b < REAL ==>
                  if code * Pow2(LOOKAHEAD - l) <= b < lookbits then lookNbits[b] == l && lookSym[b] == sym
                  else lookNbits[b] == nbits0[b] && lookSym[b] == sym0[b]
    {
      lookNbits[lookbits] := l;
      lookSym[lookbits] := sym;
      lookbits := lookbits + 1;
      ctr := ctr - 1;
    }
    forall b | 0 <= b < REAL ensures LookAt(t, b, Index(t.bits, l, i) + 1, lookNbits[b], lookSym[b]) {
      LookEntered(t, l, i, b, nbits0[b], sym0[b], lookNbits[b], lookSym[b]);
    }
  }

  lemma LookRange(bits: seq<nat>, l: nat, i: nat)
    requires LeavesOnesFree(bits) && IsCode(bits, l, i) && l <= LOOKAHEAD
    ensures var c, w := CodeValue(bits, l, i), Pow2(LOOKAHEAD - l);
            c * w + w == (c + 1) * w <= REAL
  {
    hide Space;
    CodeFits(bits, l, i);
    Pow2Add(l, LOOKAHEAD - l);
    Pow2Table();
    Scale(CodeValue(bits, l, i) + 1, Pow2(l), Pow2(LOOKAHEAD - l));
  }

  lemma Scale(x: nat, y: nat, w: nat)
    requires x <= y
    ensures x * w <= y * w
  {
  }

  method FillLookahead(t: HuffTbl, huffcode: array<nat>, ghost size: seq<nat>, n: nat)
    returns (lookNbits: array<nat>, lookSym: array<nat>)
    requires WellFormed(t) && GoodCounts(t.bits) && huffcode.Length == REAL + 1 && n == Sum(t.bits)
    requires Coded(t.bits, size, huffcode[..], n)
    ensures lookNbits.Length == lookSym.Length == REAL
    ensures forall b :: 0 <= b < REAL ==> LookAt(t, b, REAL, lookNbits[b], lookSym[b])
  {
    hide First, Space, Sum, LeavesOnesFree, Coded, LookAt, CodeLength;
    lookNbits, lookSym := new nat[REAL](_ => 0), new nat[REAL](_ => 0);
    var p := 0;
    var l := 1;
    FirstLast(t.bits);
    FirstNext(t.bits, 0);
    forall b | 0 <= b < REAL ensures LookAt(t, b, 0, 0, 0) { NotYet(t, b); }
    while l <= LOOKAHEAD
      invariant 1 <= l <= LOOKAHEAD + 1 && p == First(t.bits, l)
      invariant fresh(lookNbits) && fresh(lookSym) && lookNbits.Length == lookSym.Length == REAL && lookNbits != lookSym
      invariant Looks(t, lookNbits[..], lookSym[..], p)
    {
      FirstNext(t.bits, l);
      FirstMono(t.bits, l + 1, |t.bits|);
      var i := 1;
      while i <= t.bits[l]
        invariant 1 <= i <= t.bits[l] + 1 && p == First(t.bits, l) + i - 1
        invariant fresh(lookNbits) && fresh(lookSym) && lookNbits.Length == lookSym.Length == REAL
            && lookNbits != lookSym
        invariant Looks(t, lookNbits[..], lookSym[..], p)
      {
        CodeOfIndex(t.bits, size, huffcode[..], n, l, p);
        EnterLook(t, lookNbits, lookSym, l, huffcode[p], t.huffval[p], i - 1);
        i := i + 1;
        p := p + 1;
      }
      l := l + 1;
    }
    forall b | 0 <= b < REAL ensures LookAt(t, b, REAL, lookNbits[b], lookSym[b]) {
      LooksComplete(t, b, p, lookNbits[b], lookSym[b]);
    }
  }

  lemma NotYet(t: HuffTbl, b: nat)
    requires WellFormed(t) && b < REAL
    ensures LookAt(t, b, 0, 0, 0)
  {
  }

  // Codes of more than eight bits begin no byte.
  lemma LooksComplete(t: HuffTbl, b: nat, n: nat, nbits: nat, sym: nat)
    requires WellFormed(t) && LeavesOnesFree(t.bits) && b < REAL && n == First(t.bits, LOOKAHEAD + 1)
        && LookAt(t, b, n, nbits, sym)
    ensures LookAt(t, b, REAL, nbits, sym)
  {
    hide First, Space, Bin, Num, LeavesOnesFree, CodeLength;
    var s := Bin(b, LOOKAHEAD);
    var m := CodeLength(t.bits, s, 1);
    if m != 0 {
      NoneUpToZero(t.bits, s);
      FoundCode(t.bits, s, 1);
      IndexInRange(t.bits, m, Num(s[..m]) - 2 * Space(t.bits, m - 1));
      FirstMono(t.bits, m + 1, LOOKAHEAD + 1);
    }
  }

  // ---- The whole of jpeg_make_d_derived_tbl ------------------------------------------------------------------------

  // The decoder's checks: unlike the encoder it does not mind a symbol listed twice.
  predicate DecoderAccepts(isDC: bool, t: HuffTbl) {
    && GoodCounts(t.bits) && |t.huffval| == REAL
    && (isDC ==> forall p :: 0 <= p < Sum(t.bits) ==> t.huffval[p] <= 15)
  }

  predicate DecodesWith(t: HuffTbl, d: DTbl) {
    && WellFormed(t) && GoodCounts(t.bits) && d.pub == t
    && Bounds(t.bits, d.maxcode, d.valoffset, MAX_BITS + 1) && d.maxcode[GIVE_UP] == SENTINEL
    && Looks(t, d.lookNbits, d.lookSym, REAL)
  }

  method MakeDDerivedTbl(isDC: bool, t: HuffTbl) returns (r: Result<DTbl>)
    requires WellFormed(t)
    ensures r.Ok? <==> DecoderAccepts(isDC, t)
    ensures r.Ok? ==> DecodesWith(t, r.value)
  {
    hide First, Space, Sum, Pow2, LeavesOnesFree, Coded, Sized, LookAt;
    var huffsize, huffcode := new nat[REAL + 1](_ => 0), new nat[REAL + 1](_ => 0);
    var sizes := CodeSizes(t.bits, huffsize);
    if sizes.Err? {
      return Err;
    }
    var numsymbols := sizes.value;
    var coded := AssignCodes(t.bits, huffsize, huffcode, numsymbols);
    if !coded {
      return Err;
    }
    var maxcode, valoffset := CodeBounds(t.bits, huffcode, huffsize[..], numsymbols);
    var lookNbits, lookSym := FillLookahead(t, huffcode, huffsize[..], numsymbols);
    if isDC {
      for i := 0 to numsymbols
        invariant forall p :: 0 <= p < i ==> t.huffval[p] <= 15
      {
        if t.huffval[i] > 15 {
          return Err;
        }
      }
    }
    r := Ok(DTbl(maxcode[..], valoffset[..], lookNbits[..], lookSym[..], t));
  }

  // Whatever the encoder accepts the decoder accepts.
  lemma EncoderTableDecodes(isDC: bool, t: HuffTbl)
    requires EncoderAccepts(isDC, t)
    ensures DecoderAccepts(isDC, t)
  {
    hide Sum, LeavesOnesFree;
    var v := t.huffval[..Sum(t.bits)];
    assert forall p :: 0 <= p < Sum(t.bits) ==> v[p] == t.huffval[p];
  }
}
