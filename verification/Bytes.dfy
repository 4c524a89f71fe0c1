// Powers of two, big-endian byte strings and JPEG byte stuffing: the vocabulary
// shared by both entropy coders and by the marker code.
module Bytes {

  type byte = b: int | 0 <= b < 256

  function Pow2(n: nat): (p: nat)
    ensures p > 0
  {
    if n == 0 then 1 else 2 * Pow2(n - 1)
  }

  lemma {:induction false} Pow2Add(m: nat, n: nat)
    ensures Pow2(m + n) == Pow2(m) * Pow2(n)
    decreases n
  {
    if n != 0 {
      Pow2Add(m, n - 1);
      assert Pow2(m + n) == 2 * (Pow2(m) * Pow2(n - 1)) == Pow2(m) * (2 * Pow2(n - 1));
    }
  }

  lemma {:induction false} Pow2Mono(m: nat, n: nat)
    requires m <= n
    ensures Pow2(m) <= Pow2(n)
    decreases n
  {
    if m < n { Pow2Mono(m, n - 1); }
  }

  lemma Pow2Table()
    ensures Pow2(8) == 0x100 && Pow2(13) == 0x2000 && Pow2(15) == 0x8000 && Pow2(16) == 0x1_0000
    ensures Pow2(19) == 0x8_0000 && Pow2(24) == 0x100_0000 && Pow2(27) == 0x800_0000
  {
    assert Pow2(4) == 16;
    Pow2Add(4, 4); Pow2Add(8, 5); Pow2Add(8, 7); Pow2Add(8, 8); Pow2Add(16, 3); Pow2Add(16, 8); Pow2Add(24, 3);
  }

  // The number a byte string denotes, most significant byte first.
  function Value(s: seq<byte>): nat
  {
    if s == [] then 0 else 256 * Value(s[..|s| - 1]) + s[|s| - 1]
  }

  lemma ValueSnoc(s: seq<byte>, b: byte)
    ensures Value(s + [b]) == 256 * Value(s) + b
  {
    assert (s + [b])[..|s|] == s;
  }

  function Repeat(b: byte, n: nat): (s: seq<byte>)
    ensures |s| == n && forall i :: 0 <= i < n ==> s[i] == b
  {
    seq(n, _ => b)
  }

  lemma RepeatSnoc(s: seq<byte>, b: byte, n: nat)
    ensures s + Repeat(b, n) + [b] == s + Repeat(b, n + 1)
  {
  }

  // A stack of n 0xFF bytes absorbs a carry: the byte before it goes up by one
  // and the stack turns into zeros.
  lemma {:induction false} CarryThroughStack(s: seq<byte>, b: byte, n: nat)
    requires b < 255
    ensures Value(s + [b] + Repeat(0xFF, n)) + 1 == Value(s + [b + 1] + Repeat(0, n))
  {
    if n == 0 {
      ValueSnoc(s, b);
      ValueSnoc(s, b + 1);
      assert s + [b] + Repeat(0xFF, 0) == s + [b];
      assert s + [b + 1] + Repeat(0, 0) == s + [b + 1];
    } else {
      CarryThroughStack(s, b, n - 1);
      assert s + [b] + Repeat(0xFF, n) == (s + [b] + Repeat(0xFF, n - 1)) + [0xFF];
      assert s + [b + 1] + Repeat(0, n) == (s + [b + 1] + Repeat(0, n - 1)) + [0];
      ValueSnoc(s + [b] + Repeat(0xFF, n - 1), 0xFF);
      ValueSnoc(s + [b + 1] + Repeat(0, n - 1), 0);
    }
  }

  // n digits that are all 0xFF are one short of the next power of 256.
  lemma {:induction false} AllOnesValue(n: nat)
    ensures Value(Repeat(0xFF, n)) + 1 == Pow2(8 * n)
  {
    if n == 0 {
      assert Repeat(0xFF, 0) == [];
    } else {
      AllOnesValue(n - 1);
      assert Repeat(0xFF, n) == Repeat(0xFF, n - 1) + [0xFF];
      ValueSnoc(Repeat(0xFF, n - 1), 0xFF);
      Pow2Table();
      Pow2Add(8 * (n - 1), 8);
    }
  }

  // ---- Byte stuffing: a data byte 0xFF is followed by 0x00 -------------------

  function StuffByte(b: byte): seq<byte> {
    if b == 0xFF then [0xFF, 0x00] else [b]
  }

  function Stuff(s: seq<byte>): seq<byte> {
    if s == [] then [] else Stuff(s[..|s| - 1]) + StuffByte(s[|s| - 1])
  }

  lemma StuffSnoc(s: seq<byte>, b: byte)
    ensures Stuff(s + [b]) == Stuff(s) + StuffByte(b)
  {
    assert (s + [b])[..|s|] == s;
  }

  lemma {:induction false} StuffConcat(s: seq<byte>, t: seq<byte>)
    ensures Stuff(s + t) == Stuff(s) + Stuff(t)
    decreases |t|
  {
    if t == [] {
      assert s + t == s;
    } else {
      var u, b := t[..|t| - 1], t[|t| - 1];
      assert s + t == (s + u) + [b];
      StuffSnoc(s + u, b);
      StuffConcat(s, u);
    }
  }

  // No data byte looks like a marker: every 0xFF in a stuffed string is followed by 0x00.
  lemma {:induction false} StuffedHasNoMarker(s: seq<byte>)
    ensures forall i :: 0 <= i < |Stuff(s)| && Stuff(s)[i] == 0xFF ==> i + 1 < |Stuff(s)| && Stuff(s)[i + 1] == 0x00
  {
    if s != [] { StuffedHasNoMarker(s[..|s| - 1]); }
  }
}
