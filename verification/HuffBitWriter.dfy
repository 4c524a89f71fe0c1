// The bit buffer of the Huffman encoder: emit_bits and flush_bits with byte stuffing.
module HuffBitWriter {
  import opened Bytes
  import opened BitString

  const WORD := 0x1_0000_0000

  // ---- Machine words as bit strings --------------------------------------------------------------

  function Zeros(n: nat): (s: seq<bool>)
    ensures |s| == n && forall i :: 0 <= i < n ==> !s[i]
  {
    seq(n, _ => false)
  }

  function Ones(n: nat): (s: seq<bool>)
    ensures |s| == n && forall i :: 0 <= i < n ==> s[i]
  {
    seq(n, _ => true)
  }

  lemma {:induction false} BinZero(n: nat)
    ensures Bin(0, n) == Zeros(n)
  {
    if n > 0 { BinZero(n - 1); }
  }

  // a | b
  function Or(a: nat, b: nat): nat {
    if a == 0 && b == 0 then 0 else 2 * Or(a / 2, b / 2) + (if a % 2 == 1 || b % 2 == 1 then 1 else 0)
  }

  lemma {:induction false} OrBits(a: nat, b: nat, n: nat)
    ensures forall i :: 0 <= i < n ==> Bin(Or(a, b), n)[i] == (Bin(a, n)[i] || Bin(b, n)[i])
  {
    if n > 0 {
      OrBits(a / 2, b / 2, n - 1);
      if a == 0 && b == 0 {
        BinZero(n);
      } else {
        assert Or(a, b) / 2 == Or(a / 2, b / 2) && (Or(a, b) % 2 == 1 <==> a % 2 == 1 || b % 2 == 1);
      }
    }
  }

  lemma {:induction false} OrBound(a: nat, b: nat, n: nat)
    requires a < Pow2(n) && b < Pow2(n)
    ensures Or(a, b) < Pow2(n)
  {
    if n > 0 { OrBound(a / 2, b / 2, n - 1); }
  }

  // ---- Writing -----------------------------------------------------------------------------------------

  // The top bits of the 24 in use are waiting, the rest are zero.
  predicate Waiting(buffer: nat, pending: seq<bool>) {
    |pending| <= 24 && Bin(buffer, 24) == pending + Zeros(24 - |pending|)
  }

  // put_buffer after new bits have been aligned and merged in.
  function Merge(buffer: nat, putBits: nat, code: nat, size: nat): nat
    requires putBits + size <= 24
  {
    Or((code % Pow2(size)) * Pow2(24 - putBits - size), buffer)
  }

  lemma MergeFits(buffer: nat, k: nat, code: nat, size: nat)
    requires k + size <= 24 && buffer < WORD
    ensures Merge(buffer, k, code, size) < WORD
  {
    hide Or;
    var m, r := code % Pow2(size), 24 - k - size;
    Pow2Add(size, r);
    Pow2Mono(size + r, 32);
    Pow2Add(24, 8);
    Pow2Table();
    LessProduct(m, Pow2(size), Pow2(r));
    OrBound(m * Pow2(r), buffer, 32);
  }

  lemma MergeWaits(buffer: nat, pending: seq<bool>, code: nat, size: nat)
    requires Waiting(buffer, pending) && |pending| + size <= 24
    ensures Waiting(Merge(buffer, |pending|, code, size), pending + Bin(code, size))
  {
    hide Or, Bin;
    var k, r := |pending|, 24 - |pending| - size;
    var m := code % Pow2(size);
    var x := m * Pow2(r);
    OrBits(x, buffer, 24);
    AlignedBits(m, k, size, r);
    BinMod(code, size, size);
    var s := Bin(Or(x, buffer), 24);
    var t := pending + Bin(code, size) + Zeros(r);
    var u, v := Zeros(k) + Bin(code, size) + Zeros(r), pending + Zeros(24 - k);
    forall i | 0 <= i < 24 ensures s[i] == t[i] {
      assert s[i] == (u[i] || v[i]);
    }
    assert s == t;
  }

  lemma LessProduct(x: nat, y: nat, w: nat)
    requires x < y && w > 0
    ensures x * w < y * w
  {
  }

  lemma AlignedBits(m: nat, k: nat, size: nat, r: nat)
    requires m < Pow2(size)
    ensures Bin(m * Pow2(r), k + size + r) == Zeros(k) + Bin(m, size) + Zeros(r)
  {
    Pow2Mono(0, r);
    BinJoin(m, k + size, 0, r);
    BinZero(r);
    BinJoin(0, k, m, size);
    BinZero(k);
  }

  lemma TopByte(buffer: nat, pending: seq<bool>)
    requires Waiting(buffer, pending) && |pending| >= 8
    ensures Bin(Shr(buffer, 16) % 256, 8) == pending[..8]
    ensures Waiting((buffer * 256) % WORD, pending[8..])
  {
    Pow2Table();
    Pow2Add(24, 8);
    BinSplit(buffer, 8, 16);
    BinMod(Shr(buffer, 16), 8, 8);
    assert Bin(buffer, 24)[..8] == pending[..8];
    BinMod(buffer * 256, 24, 32);
    BinJoin(buffer, 16, 0, 8);
    BinZero(8);
    assert Bin(buffer, 24)[8..] == Bin(buffer, 16);
    assert pending[8..] + Zeros(24 - |pending|) + Zeros(8) == pending[8..] + Zeros(32 - |pending|);
  }

  class BitWriter {
    var putBuffer: nat
    var putBits: nat
    var out: seq<byte>
    ghost var dest: seq<byte>    // what was there before the segment began
    ghost var data: seq<byte>    // the bytes of the segment, before stuffing
    ghost var bits: seq<bool>    // every bit written

    ghost predicate Valid() reads this {
      && putBits <= 7 && putBuffer < WORD
      && out == dest + Stuff(data)
      && |bits| == 8 * |data| + putBits
      && bits[..8 * |data|] == ByteBits(data)
      && Waiting(putBuffer, bits[8 * |data|..])
    }

    constructor (dest: seq<byte>)
      ensures Valid() && this.dest == dest && bits == []
    {
      putBuffer, putBits, out := 0, 0, dest;
      this.dest, data, bits := dest, [], [];
      new;
      BinZero(24);
      assert Stuff([]) == [];
    }

    // Fails on a code of no bits, which is what a symbol without a code has.
    method EmitBits(code: nat, size: nat) returns (ok: bool)
      requires Valid() && size <= 16
      modifies this
      ensures ok == (size != 0) && dest == old(dest)
      ensures ok ==> Valid() && bits == old(bits) + Bin(code, size)
    {
      hide Stuff, ByteBits;
      if size == 0 {
        return false;
      }
      ghost var pending := bits[8 * |data|..];
      MergeFits(putBuffer, putBits, code, size);
      MergeWaits(putBuffer, pending, code, size);
      putBuffer := Merge(putBuffer, putBits, code, size);
      pending := pending + Bin(code, size);
      bits := bits + Bin(code, size);
      putBits := putBits + size;
      assert bits[8 * |data|..] == pending;
      while putBits >= 8
        invariant putBits <= 23 && putBuffer < WORD
        invariant dest == old(dest) && bits == old(bits) + Bin(code, size)
        invariant out == dest + Stuff(data)
        invariant |bits| == 8 * |data| + putBits && bits[..8 * |data|] == ByteBits(data)
        invariant Waiting(putBuffer, bits[8 * |data|..])
      {
        TopByte(putBuffer, bits[8 * |data|..]);
        var c: byte := Shr(putBuffer, 16) % 256;
        out := out + [c];
        if c == 0xFF {
          out := out + [0];
        }
        assert out == dest + (Stuff(data) + StuffByte(c));
        StuffSnoc(data, c);
        ByteTaken(bits, data, c);
        data := data + [c];
        putBuffer := (putBuffer * 256) % WORD;
        putBits := putBits - 8;
      }
      ok := true;
    }

    // Fills up the last byte with ones.
    method FlushBits()
      requires Valid()
      modifies this
      ensures Valid() && dest == old(dest) && putBits == 0
      ensures ByteBits(data) == bits && exists n :: 0 <= n < 8 && bits == old(bits) + Ones(n)
    {
      var _ := EmitBits(0x7F, 7);
      AllOnes(7);
      assert Pow2(7) == 128;
      ghost var all := bits;
      ghost var n := 7 - putBits;
      bits := bits[..8 * |data|];
      assert bits == old(bits) + Ones(n);
      putBuffer := 0;
      putBits := 0;
      BinZero(24);
    }

    // A marker between two segments; the next segment starts after it.
    method PutMarker(code: byte)
      requires Valid() && putBits == 0
      modifies this
      ensures Valid() && bits == [] && out == old(out) + [0xFF, code]
      ensures dest == out && putBits == 0
    {
      out := out + [0xFF];
      out := out + [code];
      dest, data, bits := out, [], [];
      assert Stuff([]) == [];
      assert out == old(out) + [0xFF, code];
    }
  }

  lemma {:induction false} AllOnes(n: nat)
    ensures Bin(Pow2(n) - 1, n) == Ones(n)
  {
    if n > 0 {
      AllOnes(n - 1);
      assert (Pow2(n) - 1) / 2 == Pow2(n - 1) - 1 && (Pow2(n) - 1) % 2 == 1;
    }
  }

  lemma ByteTaken(bits: seq<bool>, data: seq<byte>, c: byte)
    requires |bits| >= 8 * |data| + 8 && bits[..8 * |data|] == ByteBits(data)
    requires Bin(c, 8) == bits[8 * |data|..][..8]
    ensures bits[..8 * |data + [c]|] == ByteBits(data + [c])
    ensures bits[8 * |data + [c]|..] == bits[8 * |data|..][8..]
  {
    hide ByteBits, Bin;
    ByteBitsConcat(data, [c]);
    ByteBitsOne(c);
    assert bits[..8 * |data| + 8] == bits[..8 * |data|] + bits[8 * |data|..][..8];
  }
}
