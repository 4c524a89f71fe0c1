// The coefficient blocks of an MCU, as the caller of a decoder supplies them.
module CoefBlocks {
  // The caller of decode_mcu supplies cleared blocks.
  method NewBlocks(n: nat) returns (mcu: seq<array<int>>)
    ensures |mcu| == n
    ensures forall i :: 0 <= i < n ==> fresh(mcu[i]) && mcu[i].Length == 64
    ensures forall i, k :: 0 <= i < n && 0 <= k < 64 ==> mcu[i][k] == 0
    ensures forall i, j :: 0 <= i < j < n ==> mcu[i] != mcu[j]
  {
    mcu := [];
    for i := 0 to n
      invariant |mcu| == i
      invariant forall j :: 0 <= j < i ==> fresh(mcu[j]) && mcu[j].Length == 64
      invariant forall j, k :: 0 <= j < i && 0 <= k < 64 ==> mcu[j][k] == 0
      invariant forall j, k :: 0 <= j < k < i ==> mcu[j] != mcu[k]
    {
      var block := new int[64](_ => 0);
      mcu := mcu + [block];
    }
  }

  method Contents(mcu: seq<array<int>>) returns (blocks: seq<seq<int>>)
    ensures |blocks| == |mcu| && forall i :: 0 <= i < |mcu| ==> blocks[i] == mcu[i][..]
  {
    blocks := [];
    for i := 0 to |mcu|
      invariant |blocks| == i && forall j :: 0 <= j < i ==> blocks[j] == mcu[j][..]
    {
      blocks := blocks + [mcu[i][..]];
    }
  }
}
