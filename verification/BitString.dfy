// Strings of bits, most significant bit first, and the numbers they denote.
module BitString {
  import opened Division
  import opened Bytes

  // The low n bits of v.
  function Bin(v: nat, n: nat): (s: seq<bool>)
    ensures |s| == n
  {
    if n == 0 then [] else Bin(v / 2, n - 1) + [v % 2 == 1]
  }

  function Bit(b: bool): nat { if b then 1 else 0 }

  function Num(s: seq<bool>): nat {
    if s == [] then 0 else 2 * Num(s[..|s| - 1]) + Bit(s[|s| - 1])
  }

  lemma {:induction false} NumBound(s: seq<bool>)
    ensures Num(s) < Pow2(|s|)
  {
    if s != [] { NumBound(s[..|s| - 1]); }
  }

  lemma {:induction false} BinNum(s: seq<bool>)
    ensures Bin(Num(s), |s|) == s
  {
    if s != [] {
      BinNum(s[..|s| - 1]);
    }
  }

  lemma {:induction false} NumBin(v: nat, n: nat)
    requires v < Pow2(n)
    ensures Num(Bin(v, n)) == v
  {
    if n > 0 {
      NumBin(v / 2, n - 1);
      assert Bin(v, n)[..n - 1] == Bin(v / 2, n - 1);
    }
  }

  lemma {:induction false} NumConcat(s: seq<bool>, t: seq<bool>)
    ensures Num(s + t) == Num(s) * Pow2(|t|) + Num(t)
    decreases |t|
  {
    if t == [] {
      assert s + t == s;
    } else {
      var u := t[..|t| - 1];
      NumConcat(s, u);
      assert (s + t)[..|s + t| - 1] == s + u;
      TwiceProduct(Num(s), Pow2(|u|));
    }
  }

  lemma TwiceProduct(x: nat, y: nat)
    ensures 2 * (x * y) == x * (2 * y)
  {
  }

  // Bits that are shifted out or masked off do not matter.
  lemma {:induction false} BinMod(v: nat, n: nat, k: nat)
    requires n <= k
    ensures Bin(v % Pow2(k), n) == Bin(v, n)
    decreases n
  {
    if n > 0 {
      ModHalf(v, Pow2(k - 1));
      BinMod(v / 2, n - 1, k - 1);
    }
  }

  lemma ModHalf(v: nat, p: nat)
    requires p > 0
    ensures (v % (2 * p)) / 2 == (v / 2) % p && (v % (2 * p)) % 2 == v % 2
  {
    var q, r := v / (2 * p), v % (2 * p);
    assert v == 2 * p * q + r;
    assert 2 * p * q == 2 * (p * q);
    assert v / 2 == p * q + r / 2;
    assert r / 2 < p;
    DivIs(v / 2, p, q, r / 2);
  }

  // v >> n
  function Shr(v: nat, n: nat): nat {
    if n == 0 then v else Shr(v / 2, n - 1)
  }

  lemma {:induction false} ShrParts(v: nat, n: nat)
    ensures v == Shr(v, n) * Pow2(n) + v % Pow2(n)
  {
    if n > 0 {
      ShrParts(v / 2, n - 1);
      ModHalf(v, Pow2(n - 1));
      TwiceProduct(Shr(v, n), Pow2(n - 1));
    }
  }

  lemma HalfThen(v: nat, p: nat)
    requires p > 0
    ensures v / 2 / p == v / (2 * p)
  {
    var q, r := v / (2 * p), v % (2 * p);
    assert v == 2 * p * q + r;
    assert 2 * p * q == 2 * (p * q);
    DivIs(v / 2, p, q, r / 2);
  }

  lemma {:induction false} ShrIs(v: nat, n: nat)
    ensures Shr(v, n) == v / Pow2(n)
  {
    if n > 0 {
      ShrIs(v / 2, n - 1);
      HalfThen(v, Pow2(n - 1));
    }
  }

  // The most significant bit comes first.
  lemma {:induction false} BinAt(v: nat, n: nat, i: nat)
    requires i < n
    ensures Bin(v, n)[i] <==> v / Pow2(n - 1 - i) % 2 == 1
    decreases n
  {
    if i < n - 1 {
      BinAt(v / 2, n - 1, i);
      HalfThen(v, Pow2(n - 2 - i));
    }
  }

  lemma {:induction false} BinSplit(v: nat, m: nat, n: nat)
    ensures Bin(v, m + n) == Bin(Shr(v, n), m) + Bin(v, n)
    decreases n
  {
    if n > 0 {
      BinSplit(v / 2, m, n - 1);
      assert Bin(v, m + n) == Bin(v / 2, m + n - 1) + [v % 2 == 1];
    } else {
      assert Bin(v, 0) == [];
    }
  }

  // Two bit strings side by side, as one number.
  lemma {:induction false} BinJoin(x: nat, m: nat, y: nat, n: nat)
    requires y < Pow2(n)
    ensures Bin(x * Pow2(n) + y, m + n) == Bin(x, m) + Bin(y, n)
    decreases n
  {
    if n > 0 {
      var v := x * Pow2(n) + y;
      TwiceProduct(x, Pow2(n - 1));
      assert v / 2 == x * Pow2(n - 1) + y / 2 && v % 2 == y % 2;
      BinJoin(x, m, y / 2, n - 1);
      assert Bin(v, m + n) == Bin(v / 2, m + n - 1) + [v % 2 == 1];
    } else {
      assert Bin(y, 0) == [];
    }
  }

  // ---- Bytes as bits ------------------------------------------------------------------------

  function ByteBits(data: seq<byte>): (s: seq<bool>)
    ensures |s| == 8 * |data|
  {
    if data == [] then [] else Bin(data[0], 8) + ByteBits(data[1..])
  }

  lemma {:induction false} ByteBitsConcat(s: seq<byte>, t: seq<byte>)
    ensures ByteBits(s + t) == ByteBits(s) + ByteBits(t)
  {
    if s == [] {
      assert s + t == t;
    } else {
      ByteBitsConcat(s[1..], t);
      assert (s + t)[1..] == s[1..] + t && (s + t)[0] == s[0];
    }
  }

  lemma ByteBitsOne(b: byte)
    ensures ByteBits([b]) == Bin(b, 8)
  {
    assert ByteBits([b]) == Bin(b, 8) + ByteBits([b][1..]);
    assert [b][1..] == [];
  }

  // Bit i of byte k, counted from the most significant one.
  lemma {:induction false} ByteBitsAt(data: seq<byte>, k: nat, i: nat)
    requires k < |data| && i < 8
    ensures ByteBits(data)[8 * k + i] <==> data[k] / Pow2(7 - i) % 2 == 1
    decreases |data|
  {
    if k == 0 {
      BinAt(data[0], 8, i);
    } else {
      ByteBitsAt(data[1..], k - 1, i);
      assert ByteBits(data)[8 * k + i] == ByteBits(data[1..])[8 * (k - 1) + i];
    }
  }
}
