// What the progressive decoder of jdhuff.c keeps from one MCU to the next.
module ProgDecoder {
  import opened MarkerSearch
  import opened Bytes
  import opened EntropySegment
  import opened HuffBitReader
  import opened HuffSegments
  import opened HuffRestart

  // How much data there is when the caller tries with a bytes of it.
  function Arrived(input: seq<byte>, a: nat): (n: nat)
    ensures n <= |input|
  {
    if a < |input| then a else |input|
  }

  // The data lead up to a marker, and no bits had to be made up.
  predicate Sound(input: seq<byte>, s: BitState) {
    GoodState(s, |input|) && !s.insufficient && AheadOf(input, |input|, s).Marker?
  }

  class ProgDecoder {
    const input: seq<byte>      // all that the source will ever deliver
    const interval: nat         // MCUs between restart markers, zero for none
    var state: BitState
    var eobrun: nat             // blocks that are known to have no more symbols
    var lastDc: seq<int>        // DC predictions by component of the scan
    var restartsToGo: nat
    var nextRestartNum: nat     // kept by the marker reader

    predicate Valid() reads this {
      GoodState(state, |input|) && nextRestartNum < 8 && (restartsToGo == 0 || interval > 0)
    }

    constructor (input: seq<byte>, start: nat, interval: nat, comps: nat)
      requires start <= |input|
      ensures Valid() && this.input == input && this.interval == interval
      ensures state == StartAt(start) && eobrun == 0 && lastDc == seq(comps, _ => 0)
      ensures restartsToGo == interval && nextRestartNum == 0
    {
      this.input, this.interval := input, interval;
      state, eobrun, lastDc := StartAt(start), 0, seq(comps, _ => 0);
      restartsToGo, nextRestartNum := interval, 0;
    }

    // process_restart
    method ProcessRestart(avail: nat) returns (r: Restart)
      requires Valid() && avail <= |input|
      modifies this
      ensures Valid()
      ensures AheadOf(input, avail, old(state)).Marker? <==> r != MustWait
      ensures r == MustWait ==>
                && AheadOf(input, |input|, state) == AheadOf(input, |input|, old(state))
                && state.insufficient == old(state.insufficient)
                && eobrun == old(eobrun) && lastDc == old(lastDc) && restartsToGo == old(restartsToGo)
                && nextRestartNum == old(nextRestartNum)
      ensures r != MustWait ==>
                var f := AheadOf(input, |input|, old(state));
                && f == AheadOf(input, avail, old(state)) && (r == Restarted <==> f.code == 0xD0 + old(nextRestartNum))
                && (r == Restarted ==>
                      && state.pos == f.next && state.bitsLeft == 0 && state.marker == 0 && !state.insufficient
                      && eobrun == 0 && lastDc == seq(|old(lastDc)|, _ => 0)
                      && restartsToGo == interval && nextRestartNum == (old(nextRestartNum) + 1) % 8)
    {
      hide AheadOf;
      r, state := ReadRestart(input, avail, state, nextRestartNum);
      if r == Restarted {
        lastDc := seq(|lastDc|, _ => 0);
        eobrun := 0;
        restartsToGo := interval;
        nextRestartNum := (nextRestartNum + 1) % 8;
      }
    }
  }
}
