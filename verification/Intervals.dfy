// The MCUs of a scan by restart intervals.
module Intervals {
  // How many MCUs are left before a restart marker after one more of them.
  function ToGoNext(interval: nat, toGo: nat): nat {
    if interval == 0 then toGo else (if toGo == 0 then interval else toGo) - 1
  }

  // What is left of the current interval, toGo MCUs of it, and what comes after it.
  function Now<T>(interval: nat, toGo: nat, xs: seq<T>): (now: seq<T>)
    ensures now <= xs
  {
    if interval == 0 || |xs| <= toGo then xs else xs[..toGo]
  }

  function Later<T>(interval: nat, toGo: nat, xs: seq<T>): (later: seq<T>)
    ensures Now(interval, toGo, xs) + later == xs && (toGo > 0 && xs != [] ==> |later| < |xs|)
    ensures interval == 0 ==> later == []
  {
    xs[|Now(interval, toGo, xs)|..]
  }

  predicate IsDue(interval: nat, toGo: nat) {
    interval > 0 && toGo == 0
  }

  lemma NextMcu<T>(interval: nat, toGo: nat, xs: seq<T>)
    requires xs != [] && !IsDue(interval, toGo)
    ensures Now(interval, toGo, xs) != [] && Now(interval, toGo, xs)[0] == xs[0]
    ensures Now(interval, toGo, xs)[1..] == Now(interval, ToGoNext(interval, toGo), xs[1..])
    ensures Later(interval, toGo, xs) == Later(interval, ToGoNext(interval, toGo), xs[1..])
  {
    var now, now1 := Now(interval, toGo, xs), Now(interval, ToGoNext(interval, toGo), xs[1..]);
    assert now[1..] == now1;
    assert xs[1..][|now1|..] == xs[|now|..];
  }

  // A restart is due: everything is still to come.
  lemma DueMeans<T>(interval: nat, toGo: nat, xs: seq<T>)
    requires IsDue(interval, toGo)
    ensures Now(interval, toGo, xs) == [] && Later(interval, toGo, xs) == xs
  {
  }
}
