// The order in which the 64 coefficients of a block are coded.
module ZigzagOrder {

  // natural_order: position 0 is the DC coefficient, and the positions are distinct.
  predicate GoodOrder(order: seq<nat>) {
    && |order| == 64 && order[0] == 0
    && (forall i :: 0 <= i < 64 ==> order[i] < 64)
    && (forall i, j :: 0 <= i < j < 64 ==> order[i] != order[j])
  }

  // A block in the order it is coded.
  function Zigzag(order: seq<nat>, block: seq<int>): (z: seq<int>)
    requires GoodOrder(order) && |block| == 64
    ensures |z| == 64 && forall k :: 0 <= k < 64 ==> z[k] == block[order[k]]
  {
    seq(64, k requires 0 <= k < 64 => block[order[k]])
  }

  // natural_order reaches every position: 64 distinct values below 64.
  lemma Position(order: seq<nat>, i: nat) returns (k: nat)
    requires GoodOrder(order) && i < 64
    ensures k < 64 && order[k] == i
  {
    if exists k' :: 0 <= k' < 64 && order[k'] == i {
      k :| 0 <= k < 64 && order[k] == i;
    } else {
      var places := UpTo(64) - {i};
      Pigeonhole(order, 64, places);
      assert false;
    }
  }

  ghost function UpTo(n: nat): (s: set<int>)
    ensures |s| == n && forall x :: x in s <==> 0 <= x < n
  {
    if n == 0 then {} else UpTo(n - 1) + {n - 1}
  }

  // n distinct values need n places.
  lemma {:induction false} Pigeonhole(order: seq<nat>, n: nat, places: set<int>)
    requires n <= |order|
    requires forall i, j :: 0 <= i < j < n ==> order[i] != order[j]
    requires forall i :: 0 <= i < n ==> order[i] in places
    ensures |places| >= n
    decreases n
  {
    if n > 0 { Pigeonhole(order, n - 1, places - {order[n - 1]}); }
  }

  // natural_order for the coefficients 0..se of a block, with its safety entries:
  // a run in a corrupt stream can lead up to 15 places too far.
  predicate ScanOrder(order: seq<nat>, se: nat) {
    && se < 64 && |order| == se + 17 && order[0] == 0
    && (forall i :: 0 <= i < |order| ==> order[i] < 64)
    && (forall i, j :: 0 <= i < j <= se ==> order[i] != order[j])
  }

  // The coefficients 0..se of a block in the order they are coded.
  function Band(order: seq<nat>, se: nat, block: seq<int>): (z: seq<int>)
    requires ScanOrder(order, se) && |block| == 64
    ensures |z| == se + 1 && forall k :: 0 <= k <= se ==> z[k] == block[order[k]]
  {
    seq(se + 1, k requires 0 <= k <= se => block[order[k]])
  }
}
