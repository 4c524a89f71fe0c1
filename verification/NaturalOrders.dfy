// The coefficient orders of jutils.c: zigzag through blocks of 2 to 8 coefficients a side.
module NaturalOrders {
  import opened ZigzagOrder

  // ---- The tables --------------------------------------------------------------------------------------------------

  // jpeg_natural_order, without its safety entries
  function Natural8(k: nat): (p: nat)
    ensures p < 64
  {
    match k
    case 0 => 0 case 1 => 1 case 2 => 8 case 3 => 16 case 4 => 9 case 5 => 2 case 6 => 3 case 7 => 10
    case 8 => 17 case 9 => 24 case 10 => 32 case 11 => 25 case 12 => 18 case 13 => 11 case 14 => 4 case 15 => 5
    case 16 => 12 case 17 => 19 case 18 => 26 case 19 => 33 case 20 => 40 case 21 => 48 case 22 => 41 case 23 => 34
    case 24 => 27 case 25 => 20 case 26 => 13 case 27 => 6 case 28 => 7 case 29 => 14 case 30 => 21 case 31 => 28
    case 32 => 35 case 33 => 42 case 34 => 49 case 35 => 56 case 36 => 57 case 37 => 50 case 38 => 43 case 39 => 36
    case 40 => 29 case 41 => 22 case 42 => 15 case 43 => 23 case 44 => 30 case 45 => 37 case 46 => 44 case 47 => 51
    case 48 => 58 case 49 => 59 case 50 => 52 case 51 => 45 case 52 => 38 case 53 => 31 case 54 => 39 case 55 => 46
    case 56 => 53 case 57 => 60 case 58 => 61 case 59 => 54 case 60 => 47 case 61 => 55 case 62 => 62 case _ => 63
  }

  // jpeg_natural_order7
  function Natural7(k: nat): (p: nat)
    ensures p < 64
  {
    match k
    case 0 => 0 case 1 => 1 case 2 => 8 case 3 => 16 case 4 => 9 case 5 => 2 case 6 => 3 case 7 => 10
    case 8 => 17 case 9 => 24 case 10 => 32 case 11 => 25 case 12 => 18 case 13 => 11 case 14 => 4 case 15 => 5
    case 16 => 12 case 17 => 19 case 18 => 26 case 19 => 33 case 20 => 40 case 21 => 48 case 22 => 41 case 23 => 34
    case 24 => 27 case 25 => 20 case 26 => 13 case 27 => 6 case 28 => 14 case 29 => 21 case 30 => 28 case 31 => 35
    case 32 => 42 case 33 => 49 case 34 => 50 case 35 => 43 case 36 => 36 case 37 => 29 case 38 => 22 case 39 => 30
    case 40 => 37 case 41 => 44 case 42 => 51 case 43 => 52 case 44 => 45 case 45 => 38 case 46 => 46 case 47 => 53
    case _ => 54
  }

  // jpeg_natural_order6
  function Natural6(k: nat): (p: nat)
    ensures p < 64
  {
    match k
    case 0 => 0 case 1 => 1 case 2 => 8 case 3 => 16 case 4 => 9 case 5 => 2 case 6 => 3 case 7 => 10
    case 8 => 17 case 9 => 24 case 10 => 32 case 11 => 25 case 12 => 18 case 13 => 11 case 14 => 4 case 15 => 5
    case 16 => 12 case 17 => 19 case 18 => 26 case 19 => 33 case 20 => 40 case 21 => 41 case 22 => 34 case 23 => 27
    case 24 => 20 case 25 => 13 case 26 => 21 case 27 => 28 case 28 => 35 case 29 => 42 case 30 => 43 case 31 => 36
    case 32 => 29 case 33 => 37 case 34 => 44 case _ => 45
  }

  // jpeg_natural_order5
  function Natural5(k: nat): (p: nat)
    ensures p < 64
  {
    match k
    case 0 => 0 case 1 => 1 case 2 => 8 case 3 => 16 case 4 => 9 case 5 => 2 case 6 => 3 case 7 => 10
    case 8 => 17 case 9 => 24 case 10 => 32 case 11 => 25 case 12 => 18 case 13 => 11 case 14 => 4 case 15 => 12
    case 16 => 19 case 17 => 26 case 18 => 33 case 19 => 34 case 20 => 27 case 21 => 20 case 22 => 28 case 23 => 35
    case _ => 36
  }

  // jpeg_natural_order4
  function Natural4(k: nat): (p: nat)
    ensures p < 64
  {
    match k
    case 0 => 0 case 1 => 1 case 2 => 8 case 3 => 16 case 4 => 9 case 5 => 2 case 6 => 3 case 7 => 10
    case 8 => 17 case 9 => 24 case 10 => 25 case 11 => 18 case 12 => 11 case 13 => 19 case 14 => 26 case _ => 27
  }

  // jpeg_natural_order3
  function Natural3(k: nat): (p: nat)
    ensures p < 64
  {
    match k
    case 0 => 0 case 1 => 1 case 2 => 8 case 3 => 16 case 4 => 9 case 5 => 2 case 6 => 10 case 7 => 17
    case _ => 18
  }

  // jpeg_natural_order2
  function Natural2(k: nat): (p: nat)
    ensures p < 64
  {
    match k
    case 0 => 0 case 1 => 1 case 2 => 8 case _ => 9
  }

  // The order for blocks of n coefficients a side; entry k.
  function Entry(n: nat, k: nat): (p: nat)
    ensures p < 64
  {
    match n
    case 2 => Natural2(k)
    case 3 => Natural3(k)
    case 4 => Natural4(k)
    case 5 => Natural5(k)
    case 6 => Natural6(k)
    case 7 => Natural7(k)
    case _ => Natural8(k)
  }

  predicate Side(n: nat) { 1 <= n <= 8 }

  function Count(n: nat): (c: nat)
    requires Side(n)
    ensures 1 <= c <= 64
  {
    n * n
  }

  const SAFETY := 16

  // With its 16 safety entries, which all are 63.
  function NaturalOrder(n: nat): (order: seq<nat>)
    requires Side(n) && n > 1
    ensures |order| == Count(n) + SAFETY
        && forall k :: 0 <= k < |order| ==> order[k] == if k < Count(n) then Entry(n, k) else 63
  {
    seq(Count(n) + SAFETY, k requires 0 <= k => if k < Count(n) then Entry(n, k) else 63)
  }

  // ---- Zigzag ------------------------------------------------------------------------------------------------------

  function Row(p: nat): (r: nat)
    requires p < 64
    ensures 8 * r <= p < 8 * r + 8
  {
    if p < 8 then 0
    else if p < 16 then 1
    else if p < 24 then 2
    else if p < 32 then 3
    else if p < 40 then 4
    else if p < 48 then 5
    else if p < 56 then 6
    else 7
  }

  // Where a place comes in a zigzag through the block: diagonal by diagonal, down the odd
  // ones and up the even ones.
  function Diagonal(p: nat): nat
    requires p < 64
  {
    var r := Row(p);
    var c := p - 8 * r;
    16 * (r + c) + if (r + c) % 2 == 1 then r else c
  }

  lemma Rising2(k: nat)
    requires k + 1 < 4
    ensures Diagonal(Natural2(k)) < Diagonal(Natural2(k + 1))
  {
  }

  lemma Rising3(k: nat)
    requires k + 1 < 9
    ensures Diagonal(Natural3(k)) < Diagonal(Natural3(k + 1))
  {
  }

  lemma Rising4(k: nat)
    requires k + 1 < 16
    ensures Diagonal(Natural4(k)) < Diagonal(Natural4(k + 1))
  {
  }

  lemma Rising5(k: nat)
    requires k + 1 < 25
    ensures Diagonal(Natural5(k)) < Diagonal(Natural5(k + 1))
  {
  }

  lemma Rising6Low(k: nat)
    requires k < 18
    ensures Diagonal(Natural6(k)) < Diagonal(Natural6(k + 1))
  {
  }

  lemma Rising6High(k: nat)
    requires 18 <= k && k + 1 < 36
    ensures Diagonal(Natural6(k)) < Diagonal(Natural6(k + 1))
  {
  }

  lemma Rising7Low(k: nat)
    requires k < 24
    ensures Diagonal(Natural7(k)) < Diagonal(Natural7(k + 1))
  {
  }

  lemma Rising7High(k: nat)
    requires 24 <= k && k + 1 < 49
    ensures Diagonal(Natural7(k)) < Diagonal(Natural7(k + 1))
  {
  }

  lemma Rising8Low(k: nat)
    requires k < 22
    ensures Diagonal(Natural8(k)) < Diagonal(Natural8(k + 1))
  {
  }

  lemma Rising8Middle(k: nat)
    requires 22 <= k < 43
    ensures Diagonal(Natural8(k)) < Diagonal(Natural8(k + 1))
  {
  }

  lemma Rising8High(k: nat)
    requires 43 <= k && k + 1 < 64
    ensures Diagonal(Natural8(k)) < Diagonal(Natural8(k + 1))
  {
  }

  // In all orders the places come as in a zigzag.
  lemma Rising(n: nat, k: nat)
    requires Side(n) && k + 1 < Count(n)
    ensures Diagonal(Entry(n, k)) < Diagonal(Entry(n, k + 1))
  {
    hide Diagonal, Natural2, Natural3, Natural4, Natural5, Natural6, Natural7, Natural8;
    match n
    case 2 => Rising2(k);
    case 3 => Rising3(k);
    case 4 => Rising4(k);
    case 5 => Rising5(k);
    case 6 => if k < 18 { Rising6Low(k); } else { Rising6High(k); }
    case 7 => if k < 24 { Rising7Low(k); } else { Rising7High(k); }
    case _ => if k < 22 { Rising8Low(k); } else if k < 43 { Rising8Middle(k); } else { Rising8High(k); }
  }

  // Each of them goes through its part of the block in a zigzag.
  lemma {:induction false} IsZigzag(n: nat, i: nat, j: nat)
    requires Side(n) && i < j < Count(n)
    ensures Diagonal(Entry(n, i)) < Diagonal(Entry(n, j))
    decreases j
  {
    hide Diagonal, Entry;
    Rising(n, j - 1);
    if i < j - 1 { IsZigzag(n, i, j - 1); }
  }

  // They stay within the top left corner of the block.
  lemma InCorner(n: nat, k: nat)
    requires Side(n) && k < Count(n)
    ensures Entry(n, k) / 8 < n && Entry(n, k) % 8 < n
  {
  }

  // So each of them is an order to scan n times n coefficients in.
  lemma IsScanOrder(n: nat)
    requires Side(n) && n > 1
    ensures ScanOrder(NaturalOrder(n), Count(n) - 1)
        && forall k :: 0 <= k < Count(n) ==> Entry(n, k) / 8 < n && Entry(n, k) % 8 < n
  {
    hide Diagonal, Entry, Count;
    var order := NaturalOrder(n);
    StartsAtZero(n);
    forall i, j | 0 <= i < j < Count(n) ensures order[i] != order[j] { IsZigzag(n, i, j); }
    forall k | 0 <= k < Count(n) ensures Entry(n, k) / 8 < n && Entry(n, k) % 8 < n { InCorner(n, k); }
  }

  lemma StartsAtZero(n: nat)
    requires Side(n)
    ensures Entry(n, 0) == 0
  {
  }

  // ---- Every place of the corner -----------------------------------------------------------------------------------

  // The places in the first m rows of the corner.
  ghost function Corner(n: nat, m: nat): (s: set<int>)
    requires Side(n) && m <= n
    ensures forall p: nat :: p / 8 < m && p % 8 < n ==> p in s
    ensures forall p :: p in s ==> 0 <= p < 8 * m
    ensures |s| == m * n
  {
    if m == 0 then {} else Corner(n, m - 1) + RowPlaces(m - 1, n)
  }

  ghost function RowPlaces(r: nat, c: nat): (s: set<int>)
    ensures forall x :: x in s <==> 8 * r <= x < 8 * r + c
    ensures |s| == c
  {
    if c == 0 then {} else RowPlaces(r, c - 1) + {8 * r + c - 1}
  }

  // n times n different places in the corner are all of it.
  lemma PlaceOf(n: nat, p: nat) returns (k: nat)
    requires Side(n) && p / 8 < n && p % 8 < n
    ensures k < Count(n) && Entry(n, k) == p
  {
    hide Entry, Diagonal;
    if k' :| 0 <= k' < Count(n) && Entry(n, k') == p {
      return k';
    }
    var order := seq(Count(n), i requires 0 <= i < Count(n) => Entry(n, i));
    forall i, j | 0 <= i < j < Count(n) ensures order[i] != order[j] { IsZigzag(n, i, j); }
    forall i | 0 <= i < Count(n) ensures order[i] in Corner(n, n) - {p} { InCorner(n, i); }
    Pigeonhole(order, Count(n), Corner(n, n) - {p});
    assert false;
  }
}
