// jcarith.c: the arithmetic encoder's registers, delayed carry and termination,
// proved against the unbounded interval of ArithInterval.
module ArithEncoder {
  import opened Bytes
  import opened Aritab
  import opened ArithAdapt
  import opened ArithInterval
  import opened MarkerSearch

  // Everything settled so far, in order: the bytes written, the bytes held back as
  // zeros, the buffer byte, and the stacked 0xFF bytes.
  function DigitsOf(data: seq<byte>, zc: nat, buffer: int, sc: nat): (d: seq<byte>)
    requires -1 <= buffer < 0xFF
    ensures |d| == |data| + zc + (if buffer >= 0 then 1 else 0) + sc
  {
    data + Repeat(0, zc) + (if buffer >= 0 then [buffer] else []) + Repeat(0xFF, sc)
  }

  // What the digits before the stack read once the buffer byte is final.
  function Settled(data: seq<byte>, zc: nat, buffer: int): seq<byte>
    requires -1 <= buffer < 0xFF
  {
    if buffer == 0 then data + Repeat(0, zc + 1)
    else if buffer > 0 then data + Repeat(0, zc) + [buffer]
    else data + Repeat(0, zc)
  }

  lemma SettledDigits(data: seq<byte>, zc: nat, buffer: int, sc: nat)
    requires -1 <= buffer < 0xFF
    ensures DigitsOf(data, zc, buffer, sc) == Settled(data, zc, buffer) + Repeat(0xFF, sc)
  {
  }

  lemma PushBuffer(data: seq<byte>, zc: nat, b: byte)
    requires b < 0xFF
    ensures |DigitsOf(data, zc, b, 0)| == |data| + zc + 1
    ensures Value(DigitsOf(data, zc, b, 0)) == 256 * Value(data + Repeat(0, zc)) + b
  {
    assert DigitsOf(data, zc, b, 0) == (data + Repeat(0, zc)) + [b];
    ValueSnoc(data + Repeat(0, zc), b);
  }

  lemma PushStack(data: seq<byte>, zc: nat, buffer: int, sc: nat)
    requires -1 <= buffer < 0xFF
    ensures Value(DigitsOf(data, zc, buffer, sc + 1)) == 256 * Value(DigitsOf(data, zc, buffer, sc)) + 0xFF
  {
    assert DigitsOf(data, zc, buffer, sc + 1) == DigitsOf(data, zc, buffer, sc) + [0xFF];
    ValueSnoc(DigitsOf(data, zc, buffer, sc), 0xFF);
  }

  // The conservation law of the delayed carry: n settled digits of value v and
  // register c together are exactly the low end of the interval, and c keeps its
  // spacer bits free.
  predicate Conserves(iv: Interval, v: nat, n: nat, c: nat, a: nat, ct: int) {
    && 0 <= ct <= 11
    && iv.range == a
    && iv.shifts + ct == 11 + 8 * n
    && iv.low == v * Pow2(27 - ct) + c
    && (if ct <= 8 then c + a <= 9 * Pow2(24 - ct) else n == 0)
  }

  // The most that C and A come to together; the 32 bits of an INT32 hold it easily, also
  // when they have been doubled.
  const REGISTER_MAX := 0x900_0000

  lemma RegistersFit(iv: Interval, v: nat, n: nat, c: nat, a: nat, ct: int)
    requires Conserves(iv, v, n, c, a, ct) && BelowTop(iv) && (n == 0 ==> v == 0)
    ensures c + a <= REGISTER_MAX
  {
    Pow2Table();
    if ct <= 8 {
      Pow2Mono(24 - ct, 24);
    } else {
      Pow2Mono(16 + iv.shifts, 18);
    }
  }

  lemma RegisterRange(iv: Interval, v: nat, n: nat, c: nat, a: nat, ct: int)
    requires Conserves(iv, v, n, c, a, ct)
    ensures iv.range == a && 0 <= ct <= 11
  {
  }

  lemma NoDigits(d: seq<byte>)
    ensures |d| == 0 ==> Value(d) == 0
  {
  }

  lemma TwiceProduct(v: nat, w: nat)
    ensures 2 * (v * w) == v * (2 * w)
  {
  }

  lemma ConservesShift(iv: Interval, v: nat, n: nat, c: nat, a: nat, ct: int)
    requires Conserves(iv, v, n, c, a, ct) && ct > 0
    requires BelowTop(iv) && (n == 0 ==> v == 0)
    ensures Conserves(Double(iv), v, n, 2 * c, 2 * a, ct - 1)
  {
    var w := Pow2(27 - ct);
    assert Pow2(28 - ct) == 2 * w;
    TwiceProduct(v, w);
    if ct <= 8 {
      assert Pow2(25 - ct) == 2 * Pow2(24 - ct);
    } else if ct == 9 {
      FirstByte(iv, c, a);
    }
  }

  // Nothing has been written yet, and the first byte comes into reach.
  lemma FirstByte(iv: Interval, c: nat, a: nat)
    requires BelowTop(iv) && iv.low == c && iv.range == a && iv.shifts == 2
    ensures 2 * c + 2 * a <= 9 * Pow2(16)
  {
    Pow2Table();
  }

  lemma ConservesPart(iv: Interval, v: nat, n: nat, c: nat, a: nat, ct: int, qe: nat, lps: bool)
    requires Normal(iv) && 0 < qe < 0x8000
    requires Conserves(iv, v, n, c, a, ct) && BelowTop(iv)
    ensures var part := Part(iv, qe, lps);
            BelowTop(part) && Conserves(part, v, n, c + (part.low - iv.low), part.range, ct)
  {
  }

  // Moving a byte from c to the digits; it may carry, but then it is small, so the
  // next buffer byte cannot be 0xFF.
  lemma CarryIsSmall(iv: Interval, v: nat, n: nat, c: nat, a: nat)
    requires Conserves(iv, v, n, c, a, 0) && 0 < a
    ensures c / 0x8_0000 < 0x120
  {
    Pow2Table();
  }

  lemma ConservesByte(iv: Interval, v: nat, n: nat, c: nat, a: nat, v': nat)
    requires Conserves(iv, v, n, c, a, 0) && 0 < a < 0x1_0000
    requires v' == 256 * v + c / 0x8_0000
    ensures Conserves(iv, v', n + 1, c % 0x8_0000, a, 8)
  {
    Pow2Table();
  }

  // A carry out of c needs a digit below the all-ones value to go to.
  lemma CarryHasRoom(iv: Interval, n: nat, c: nat, a: nat)
    requires Conserves(iv, Value(Repeat(0xFF, n)), n, c, a, 0) && BelowTop(iv) && a > 0
    ensures c < 0x800_0000
  {
    var v := Value(Repeat(0xFF, n));
    AllOnesValue(n);
    Pow2Table();
    Pow2Add(8 * n, 27);
    assert (v + 1) * 0x800_0000 == v * 0x800_0000 + 0x800_0000;
  }

  // Section D.1.8: the value finish_pass sends.
  function Terminate(c: nat, a: nat): (r: nat)
    requires 0x8000 <= a <= 0x1_0000
    ensures c <= r < c + a && r % 0x8000 == 0
  {
    var t := (a - 1 + c) / 0x1_0000;
    var temp := t * 0x1_0000;
    ModOfMultiple(2 * t, 0x8000);
    ModOfMultiple(2 * t + 1, 0x8000);
    assert temp == 2 * t * 0x8000 && temp + 0x8000 == (2 * t + 1) * 0x8000;
    if temp < c then temp + 0x8000 else temp
  }

  // It is the value in the interval with the most trailing zero bits.
  lemma TerminateIsShortest(c: nat, a: nat, y: nat, k: nat)
    requires 0x8000 <= a <= 0x1_0000
    requires c <= y < c + a && y % Pow2(k) == 0
    ensures Terminate(c, a) % Pow2(k) == 0
  {
    Pow2Table();
    if k <= 15 {
      Pow2Add(15 - k, k);
      DividesTrans(Terminate(c, a), 0x8000, Pow2(15 - k), Pow2(k));
    } else {
      Pow2Add(k - 16, 16);
      DividesTrans(y, Pow2(k), Pow2(k - 16), 0x1_0000);
      OneMultiple(c, a, y);
    }
  }

  lemma OneMultiple(c: nat, a: nat, y: nat)
    requires 0x8000 <= a <= 0x1_0000
    requires c <= y < c + a && y % 0x1_0000 == 0
    ensures y == Terminate(c, a)
  {
  }

  lemma DividesTrans(x: nat, m: nat, q: nat, d: nat)
    requires m > 0 && d > 0 && m == q * d && x % m == 0
    ensures x % d == 0
  {
    var n := x / m;
    assert x == m * n == (q * d) * n == (n * q) * d;
    ModOfMultiple(n * q, d);
  }

  lemma ModOfMultiple(n: nat, d: nat)
    requires d > 0
    ensures n * d % d == 0
  {
    var x := n * d;
    var q, r := x / d, x % d;
    assert x == q * d + r && 0 <= r < d;
    assert (n - q) * d == r;
    if n - q >= 1 { MulMono(1, n - q, d); }
    if n - q <= -1 { assert (q - n) * d == -r; MulMono(1, q - n, d); }
  }

  // finish_pass shifts C left by CT at one go: the same as CT single shifts.
  function Shifted(iv: Interval, k: nat): Interval
    decreases k
  {
    if k == 0 then iv else Shifted(Double(iv), k - 1)
  }

  // c <<= k
  function Shl(c: nat, k: nat): nat
    decreases k
  {
    if k == 0 then c else Shl(2 * c, k - 1)
  }

  lemma {:induction false} ShlKeepsMultiple(c: nat, k: nat, m: nat)
    requires m > 0 && c % m == 0
    ensures Shl(c, k) % m == 0
    decreases k
  {
    if k > 0 {
      assert c == (c / m) * m;
      assert 2 * c == (2 * (c / m)) * m;
      ModOfMultiple(2 * (c / m), m);
      ShlKeepsMultiple(2 * c, k - 1, m);
    }
  }

  lemma {:induction false} ShlPositive(c: nat, k: nat)
    requires c > 0
    ensures Shl(c, k) > 0
    decreases k
  {
    if k > 0 { ShlPositive(2 * c, k - 1); }
  }

  lemma {:induction false} ShiftOut(iv: Interval, v: nat, n: nat, c: nat, a: nat, ct: nat)
    requires Conserves(iv, v, n, c, a, ct) && BelowTop(iv) && (n == 0 ==> v == 0)
    ensures Conserves(Shifted(iv, ct), v, n, Shl(c, ct), Shl(a, ct), 0) && BelowTop(Shifted(iv, ct))
    decreases ct
  {
    if ct > 0 {
      ConservesShift(iv, v, n, c, a, ct);
      ShiftOut(Double(iv), v, n, 2 * c, 2 * a, ct - 1);
      assert Shifted(iv, ct) == Shifted(Double(iv), ct - 1);
      assert Shl(c, ct) == Shl(2 * c, ct - 1) && Shl(a, ct) == Shl(2 * a, ct - 1);
    }
  }

  lemma {:induction false} InShifted(iv: Interval, k: nat, x: nat, p: nat)
    requires p >= 16 + iv.shifts + k
    ensures In(x, p, Shifted(iv, k)) <==> In(x, p, iv)
    decreases k
  {
    if k > 0 {
      InDouble(x, p, iv);
      InShifted(Double(iv), k - 1, x, p);
    }
  }

  // The point that finish_pass picks, as an interval of range 1.
  function Point(iv: Interval, c: nat): Interval
    requires Normal(iv)
  {
    Interval(iv.low + (Terminate(c, iv.range) - c), 1, iv.shifts)
  }

  lemma InPoint(iv: Interval, c: nat, x: nat, p: nat)
    requires Normal(iv) && In(x, p, Point(iv, c))
    ensures In(x, p, iv)
  {
    var q, w := Point(iv, c), Pow2(p - 16 - iv.shifts);
    MulMono(iv.low, q.low, w);
    MulMono(q.low + 1, iv.low + iv.range, w);
  }

  // Everything finish_pass needs about its final register value.
  lemma FinalRegister(iv: Interval, v: nat, n: nat, c: nat, a: nat, ct: nat)
    requires Conserves(iv, v, n, c, a, ct) && Normal(iv) && BelowTop(iv) && (n == 0 ==> v == 0)
    ensures var q, f := Shifted(Point(iv, c), ct), Shl(Terminate(c, a), ct);
            && Conserves(q, v, n, f, Shl(1, ct), 0) && BelowTop(q) && f % 0x800 == 0 && Shl(1, ct) > 0
            && f <= REGISTER_MAX
  {
    var q, f := Point(iv, c), Terminate(c, a);
    assert Conserves(q, v, n, f, 1, ct) && BelowTop(q);
    ShiftOut(q, v, n, f, 1, ct);
    EvenMoreSo(f);
    ShlKeepsMultiple(f, ct, 0x800);
    ShlPositive(1, ct);
    RegistersFit(Shifted(q, ct), v, n, Shl(f, ct), Shl(1, ct), 0);
  }

  lemma RestBytes(rest: nat)
    requires rest < 0x800_0000 && rest % 0x800 == 0
    ensures rest / 0x8_0000 < 0x100
    ensures rest == 0x8_0000 * (rest / 0x8_0000) + 0x800 * (rest / 0x800 % 0x100)
  {
    var g := rest / 0x800;
    assert rest == 0x800 * g && g / 0x100 == rest / 0x8_0000;
  }

  lemma EvenMoreSo(f: nat)
    requires f % 0x8000 == 0
    ensures f % 0x800 == 0
  {
    var g := f / 0x8000;
    assert f == (16 * g) * 0x800;
    ModOfMultiple(16 * g, 0x800);
  }

  lemma ModOfMod(f: nat)
    requires f % 0x800 == 0
    ensures f % 0x800_0000 % 0x800 == 0
  {
  }

  // Two more digits hold all that is left in the register, and four are enough
  // to be inside an interval that starts there.
  lemma FinalNumber(q: Interval, v: nat, n: nat, f: nat, a: nat, digits: seq<byte>, rest: nat)
    requires Conserves(q, v, n, f, a, 0) && a > 0
    requires |digits| == n && rest < 0x800_0000 && rest % 0x800 == 0
    requires Value(digits) * 0x800_0000 + rest == v * 0x800_0000 + f
    ensures In(Window(digits + [rest / 0x8_0000, rest / 0x800 % 0x100], n + 4), 8 * (n + 4), q)
  {
    var b1, b2 := rest / 0x8_0000, rest / 0x800 % 0x100;
    var full := digits + [b1, b2];
    RestBytes(rest);
    assert full == (digits + [b1]) + [b2];
    ValueSnoc(digits, b1);
    ValueSnoc(digits + [b1], b2);
    WindowIsValue(full, n + 2);
    assert full[..n + 2] == full;
    var x := Window(full, n + 4);
    assert x == 256 * Window(full, n + 3) == 256 * (256 * Window(full, n + 2));
    Pow2Table();
    assert Pow2(5) == 32;
    assert 8 * (n + 4) - 16 - q.shifts == 5;
    assert x == q.low * 32;
  }

  lemma FinalStream(iv: Interval, v: nat, n: nat, c: nat, a: nat, ct: nat, digits: seq<byte>, rest: nat,
      data: seq<byte>, k: nat)
    requires Conserves(iv, v, n, c, a, ct) && Normal(iv) && BelowTop(iv) && (n == 0 ==> v == 0)
    requires |digits| == n && rest < 0x800_0000 && rest % 0x800 == 0
    requires Value(digits) * 0x800_0000 + rest == v * 0x800_0000 + Shl(Terminate(c, a), ct)
    requires digits + [rest / 0x8_0000, rest / 0x800 % 0x100] == data + Repeat(0, k)
    ensures Contains(iv, data)
  {
    var q := Shifted(Point(iv, c), ct);
    FinalRegister(iv, v, n, c, a, ct);
    FinalNumber(q, v, n, Shl(Terminate(c, a), ct), Shl(1, ct), digits, rest);
    TrailingZerosDoNotMatter(data, k, n + 4);
    InShifted(Point(iv, c), ct, Window(data, n + 4), 8 * (n + 4));
    InPoint(iv, c, Window(data, n + 4), 8 * (n + 4));
    InAnyWindow(iv, data, n + 4, iv.shifts + 3);
  }

  class Encoder {
    const table: Table
    const stats: array<int>   // every statistics bin of the scan, by address

    var c: nat                // base of the coding interval, byte at bits 19..26
    var a: nat                // normalised size of the coding interval
    var sc: nat               // stacked 0xFF bytes, which a carry would turn to 0x00
    var zc: nat               // pending 0x00 bytes, dropped if nothing follows
    var ct: int               // shifts until the next byte is ready
    var buffer: int           // most recent byte that is not 0xFF, or -1
    var out: seq<byte>        // destination

    ghost var start: seq<byte>         // what the destination held before the segment
    ghost var data: seq<byte>          // data bytes written so far, unstuffed
    ghost var entry: State             // where the segment started
    ghost var history: seq<Decision>   // decisions coded in the segment
    ghost var closed: seq<byte>        // data of the segment before

    ghost function Digits(): (d: seq<byte>)
      requires -1 <= buffer < 0xFF
      reads this`data, this`zc, this`buffer, this`sc
    {
      DigitsOf(data, zc, buffer, sc)
    }

    // Written bytes never end in a zero, so what was written can be the whole output.
    ghost predicate OutputOk()
      reads this`buffer, this`out, this`start, this`data, this`zc
    {
      && -1 <= buffer < 0xFF
      && out == start + Stuff(data)
      && (data != [] ==> data[|data| - 1] != 0)
      && (buffer < 0 ==> data == [] && zc == 0)
    }

    ghost predicate Represents(iv: Interval)
      requires -1 <= buffer < 0xFF
      reads this`data, this`zc, this`buffer, this`sc, this`c, this`a, this`ct
    {
      Conserves(iv, Value(Digits()), |Digits()|, c, a, ct)
    }

    ghost function Now(): State
      requires GoodState(entry) && GoodDecisions(history, |entry.stats|)
      reads this`entry, this`history
    {
      Run(table, entry, history)
    }

    ghost predicate Valid()
      reads this, stats
    {
      && OutputOk()
      && GoodState(entry) && entry.iv == FULL && |entry.stats| == stats.Length
      && GoodDecisions(history, stats.Length)
      && Now().stats == stats[..]
      && ct > 0 && c + a <= REGISTER_MAX
      && Represents(Now().iv)
    }

    // Still in the segment it was in.
    twostate predicate SameSegment()
      reads this
    {
      start == old(start) && entry == old(entry)
    }

    // start_pass: the statistics as given and an empty segment appended to dest.
    constructor (t: Table, init: seq<int>, dest: seq<byte>)
      requires GoodStats(init)
      ensures Valid() && fresh(stats)
      ensures table == t && stats.Length == |init|
      ensures out == dest && start == dest && history == []
      ensures entry == State(FULL, init)
    {
      table := t;
      stats := new int[|init|](i requires 0 <= i < |init| => init[i]);
      c, a, sc, zc, ct, buffer := 0, 0x1_0000, 0, 0, 11, -1;
      out, start, data, history, closed := dest, dest, [], [], [];
      entry := State(FULL, init);
      new;
      assert stats[..] == entry.stats;
      Pow2Table();
    }

    method EmitByte(val: byte)
      modifies this`out
      ensures out == old(out) + [val]
    {
      out := out + [val];
    }

    // A data byte together with the stuffing that follows 0xFF.
    method EmitData(val: byte)
      requires out == start + Stuff(data)
      modifies this`out, this`data
      ensures out == start + Stuff(data)
      ensures data == old(data) + [val]
    {
      EmitByte(val);
      if val == 0xFF { EmitByte(0x00); }
      StuffSnoc(data, val);
      data := data + [val];
    }

    // The "do emit_byte while (--n)" loops over pending zeros and stacked 0xFF.
    method EmitRun(val: byte, n: nat)
      requires out == start + Stuff(data)
      modifies this`out, this`data
      ensures out == start + Stuff(data)
      ensures data == old(data) + Repeat(val, n)
    {
      ghost var before := data;
      assert data == before + Repeat(val, 0);
      for i := 0 to n
        invariant out == start + Stuff(data)
        invariant data == before + Repeat(val, i)
      {
        RepeatSnoc(before, val, i);
        EmitData(val);
      }
    }

    method FlushZeros()
      requires out == start + Stuff(data)
      modifies this`out, this`data, this`zc
      ensures out == start + Stuff(data)
      ensures zc == 0 && data == old(data) + Repeat(0, old(zc))
    {
      EmitRun(0x00, zc);
      zc := 0;
    }

    // The carry reaches the buffer byte: it is written one higher, and the stack
    // becomes pending zeros.
    method ResolveCarry()
      requires OutputOk() && buffer >= 0
      modifies this`out, this`data, this`zc, this`sc, this`buffer
      ensures buffer == old(buffer)
      ensures out == start + Stuff(data) && data != [] && data[|data| - 1] != 0
      ensures sc == 0 && |data + Repeat(0, zc)| == |old(Digits())|
      ensures Value(data + Repeat(0, zc)) == Value(old(Digits())) + 1
    {
      hide Stuff, Value;
      ghost var head := data + Repeat(0, zc);
      CarryThroughStack(head, buffer, sc);
      FlushZeros();
      EmitData(buffer + 1);
      zc := zc + sc;
      sc := 0;
      assert zc == old(sc);
    }

    // No carry can come any more: the buffer and the stack are final.
    method ResolveNoCarry()
      requires OutputOk()
      modifies this`out, this`data, this`zc, this`sc
      ensures out == start + Stuff(data) && (data != [] ==> data[|data| - 1] != 0)
      ensures sc == 0 && data + Repeat(0, zc) == old(Digits())
    {
      SettledDigits(data, zc, buffer, sc);
      SettleBuffer();
      if sc > 0 {
        FlushZeros();
        EmitRun(0xFF, sc);
        sc := 0;
      }
      assert data + Repeat(0, zc) == old(Digits());
    }

    // A zero buffer byte joins the pending zeros instead of being written.
    method SettleBuffer()
      requires OutputOk()
      modifies this`out, this`data, this`zc
      ensures out == start + Stuff(data) && (data != [] ==> data[|data| - 1] != 0)
      ensures data + Repeat(0, zc) == Settled(old(data), old(zc), buffer)
    {
      if buffer == 0 {
        zc := zc + 1;
      } else if buffer >= 0 {
        FlushZeros();
        EmitData(buffer);
      }
    }

    // "Another byte is ready for output", in its three cases: a carry, a byte that
    // a carry would pass through, and a byte that stops any later carry.
    method PutCarry(temp: nat)
      requires OutputOk() && buffer >= 0 && 0xFF < temp < 0x120
      modifies this`out, this`data, this`zc, this`sc, this`buffer
      ensures OutputOk() && |Digits()| == old(|Digits()|) + 1
      ensures Value(Digits()) == 256 * old(Value(Digits())) + temp
    {
      ghost var v := Value(Digits());
      ResolveCarry();
      ghost var head := Value(data + Repeat(0, zc));
      assert head == v + 1;
      buffer := temp % 0x100;
      PushBuffer(data, zc, buffer);
      assert Value(Digits()) == 256 * head + buffer;
    }

    method PutStacked()
      requires OutputOk()
      modifies this`sc
      ensures OutputOk() && |Digits()| == old(|Digits()|) + 1
      ensures Value(Digits()) == 256 * old(Value(Digits())) + 0xFF
    {
      PushStack(data, zc, buffer, sc);
      sc := sc + 1;
    }

    method PutByte(temp: nat)
      requires OutputOk() && temp < 0xFF
      modifies this`out, this`data, this`zc, this`sc, this`buffer
      ensures OutputOk() && |Digits()| == old(|Digits()|) + 1
      ensures Value(Digits()) == 256 * old(Value(Digits())) + temp
    {
      ghost var digits := Digits();
      ResolveNoCarry();
      assert data + Repeat(0, zc) == digits;
      buffer := temp;
      PushBuffer(data, zc, buffer);
    }

    method PutDigit(temp: nat)
      requires OutputOk() && temp < 0x120
      requires temp > 0xFF ==> buffer >= 0
      modifies this`out, this`data, this`zc, this`sc, this`buffer
      ensures OutputOk() && |Digits()| == old(|Digits()|) + 1
      ensures Value(Digits()) == 256 * old(Value(Digits())) + temp
    {
      if temp > 0xFF {
        PutCarry(temp);
      } else if temp == 0xFF {
        PutStacked();
      } else {
        PutByte(temp);
      }
    }

    // Move bits 19 and up of C to the output side.
    method ByteReady(ghost iv: Interval)
      requires OutputOk() && ct == 0 && Represents(iv) && BelowTop(iv)
      requires 0 < a < 0x1_0000
      modifies this`out, this`data, this`zc, this`sc, this`buffer, this`c, this`ct
      ensures OutputOk() && ct == 8 && Represents(iv) && old(c) + a <= REGISTER_MAX
    {
      hide Value, Stuff, DigitsOf, Conserves, BelowTop;
      var temp := c / 0x8_0000;
      ghost var v, n := Value(Digits()), |Digits()|;
      RegisterRange(iv, v, n, c, a, ct);
      CarryFindsBuffer(iv);
      CarryIsSmall(iv, v, n, c, a);
      NoDigits(Digits());
      RegistersFit(iv, v, n, c, a, 0);
      PutDigit(temp);
      ConservesByte(iv, v, n, c, a, Value(Digits()));
      c := c % 0x8_0000;
      ct := ct + 8;
    }

    lemma CarryFindsBuffer(iv: Interval)
      requires OutputOk() && BelowTop(iv) && iv.range > 0
      requires Conserves(iv, Value(Digits()), |Digits()|, c, iv.range, 0)
      ensures c >= 0x800_0000 ==> buffer >= 0
    {
      if buffer < 0 {
        assert Digits() == Repeat(0xFF, sc);
        CarryHasRoom(iv, sc, c, iv.range);
      }
    }

    method ArithEncode(st: nat, val: int)
      requires Valid() && st < stats.Length && 0 <= val <= 1
      modifies stats, this`history
      modifies this`out, this`data, this`zc, this`sc, this`buffer, this`c, this`a, this`ct
      ensures Valid()
      ensures history == old(history) + [Decision(st, val)]
      ensures table == JPEG_ARITAB ==> Adapted(old(Now()), Now(), Decision(st, val))
    {
      hide Adapted;
      RunSnoc(table, entry, history, Decision(st, val));
      if table == JPEG_ARITAB { CodeAdapts(Now(), Decision(st, val)); }
      RunBelowTop0(table, entry, history);
      EncodeFrom(Now(), st, val);
      history := history + [Decision(st, val)];
    }

    method EncodeFrom(ghost s: State, st: nat, val: int)
      requires OutputOk() && ct > 0
      requires st < stats.Length && 0 <= val <= 1
      requires GoodState(s) && s.stats == stats[..]
      requires Represents(s.iv) && BelowTop(s.iv)
      modifies stats
      modifies this`out, this`data, this`zc, this`sc, this`buffer, this`c, this`a, this`ct
      ensures OutputOk() && ct > 0 && c + a <= REGISTER_MAX
      ensures Represents(Code(table, s, Decision(st, val)).iv)
      ensures Code(table, s, Decision(st, val)).stats == stats[..]
    {
      ghost var part := Narrow(s, st, val);
      if a < 0x8000 {
        RenormE(part);
      } else {
        RegistersFit(part, Value(Digits()), |Digits()|, c, a, ct);
      }
    }

    // The part of arith_encode before the renormalisation loop.
    method Narrow(ghost s: State, st: nat, val: int) returns (ghost part: Interval)
      requires OutputOk() && ct > 0
      requires st < stats.Length && 0 <= val <= 1
      requires GoodState(s) && s.stats == stats[..]
      requires Represents(s.iv) && BelowTop(s.iv)
      modifies this`a, this`c, stats
      ensures Represents(part) && BelowTop(part)
      ensures 0 < a <= 0x1_0000
      ensures Code(table, s, Decision(st, val)) == State(Renorm(part), stats[..])
    {
      hide Value, Stuff, DigitsOf, Conserves, BelowTop, Estimate;
      var sv := stats[st];
      var e: Entry := table[sv % 0x80];
      var qe := Qe(e);
      RegisterRange(s.iv, Value(Digits()), |Digits()|, c, a, ct);
      part := Part(s.iv, qe, val != Mps(sv));
      ConservesPart(s.iv, Value(Digits()), |Digits()|, c, a, ct, qe, val != Mps(sv));
      a := a - qe;
      if val != sv / 0x80 {
        if a >= qe {
          c := c + a;
          a := qe;
        }
        stats[st] := Estimate(sv, Nl(e));
      } else {
        if a >= 0x8000 {
          return;
        }
        if a < qe {
          c := c + a;
          a := qe;
        }
        stats[st] := Estimate(sv, Nm(e));
      }
    }

    // The renormalisation loop, on registers that represent a part still below 0x8000.
    method RenormE(ghost part: Interval)
      requires OutputOk() && ct > 0 && Represents(part) && BelowTop(part)
      requires 0 < a < 0x8000
      modifies this`out, this`data, this`zc, this`sc, this`buffer, this`c, this`a, this`ct
      ensures OutputOk() && ct > 0 && Represents(Renorm(part)) && c + a <= REGISTER_MAX
    {
      ghost var iv := part;
      while a < 0x8000
        invariant OutputOk() && ct > 0 && Represents(iv) && BelowTop(iv)
        invariant 0 < a < 0x1_0000
        invariant Renorm(iv) == Renorm(part)
        decreases 0x1_0000 - a
      {
        RenormStep(iv);
        iv := Double(iv);
      }
      RegistersFit(iv, Value(Digits()), |Digits()|, c, a, ct);
    }

    method RenormStep(ghost iv: Interval)
      requires OutputOk() && ct > 0 && Represents(iv) && BelowTop(iv)
      requires 0 < a < 0x8000
      modifies this`out, this`data, this`zc, this`sc, this`buffer, this`c, this`a, this`ct
      ensures OutputOk() && ct > 0 && Represents(Double(iv)) && BelowTop(Double(iv))
      ensures a == 2 * old(a)
    {
      hide Stuff, DigitsOf, Conserves;
      ConservesShift(iv, Value(Digits()), |Digits()|, c, a, ct);
      a := 2 * a;
      c := 2 * c;
      ct := ct - 1;
      if ct == 0 { ByteReady(Double(iv)); }
    }

    // finish_pass: settle the digits, then send the last two bytes unless they and
    // all that is pending are zero.
    method FinishPass()
      requires Valid()
      modifies this`out, this`data, this`zc, this`sc, this`buffer, this`c
      ensures out == start + Stuff(data)
      ensures data != [] ==> data[|data| - 1] != 0
      ensures Contains(old(Now().iv), data) && c <= REGISTER_MAX
    {
      RunBelowTop0(table, entry, history);
      FinishFrom(Now().iv);
    }

    method FinishFrom(ghost iv: Interval)
      requires OutputOk() && Represents(iv) && Normal(iv) && BelowTop(iv)
      modifies this`out, this`data, this`zc, this`sc, this`buffer, this`c
      ensures out == start + Stuff(data)
      ensures data != [] ==> data[|data| - 1] != 0
      ensures Contains(iv, data) && c <= REGISTER_MAX
    {
      hide Value, Stuff, DigitsOf, Shl, Contains, Terminate, Conserves, BelowTop, Shifted, Point;
      ghost var v, n, c0 := Value(Digits()), |Digits()|, c;
      NoDigits(Digits());
      RegisterRange(iv, v, n, c, a, ct);
      FinalRegister(iv, v, n, c, a, ct);
      c := Shl(Terminate(c, a), ct);
      RegisterRange(Shifted(Point(iv, c0), ct), v, n, c, Shl(1, ct), 0);
      ModOfMod(c);
      SettleAll(Shifted(Point(iv, c0), ct));
      ghost var digits := data + Repeat(0, zc);
      ghost var k := SendFinalBytes(c % 0x800_0000);
      FinalStream(iv, v, n, c0, a, ct, digits, c % 0x800_0000, data, k);
    }

    // emit_restart: the segment is finished and closed by its marker, and the next one
    // starts with the registers and statistics of the first.
    method EmitRestart(num: nat, init: seq<int>)
      requires Valid() && num < 8 && GoodStats(init) && |init| == stats.Length
      modifies this, stats
      ensures Valid() && history == [] && entry == State(FULL, init) && out == start
      ensures Contains(old(Now().iv), closed) && (closed != [] ==> closed[|closed| - 1] != 0)
      ensures out == old(start) + Stuff(closed) + [0xFF, 0xD0 + num]
    {
      hide Contains, Run, Stuff, Conserves, DigitsOf, GoodStats;
      FinishPass();
      closed := data;
      EmitByte(0xFF);
      EmitByte(RST0 + num);
      assert out == old(start) + Stuff(closed) + [0xFF, RST0 + num];
      StartSegment(init);
    }

    method StartSegment(init: seq<int>)
      requires GoodStats(init) && |init| == stats.Length
      modifies this`c, this`a, this`sc, this`zc, this`ct, this`buffer, stats
      modifies this`start, this`data, this`entry, this`history
      ensures Valid() && history == [] && entry == State(FULL, init) && start == out
    {
      hide Valid, GoodStats;
      c, a, sc, zc, ct, buffer := 0, 0x1_0000, 0, 0, 11, -1;
      start, data, history, entry := out, [], [], State(FULL, init);
      ClearStats(init);
      JustStarted();
    }

    method ClearStats(init: seq<int>)
      requires |init| == stats.Length
      modifies stats
      ensures stats[..] == init
    {
      forall i | 0 <= i < stats.Length { stats[i] := init[i]; }
    }

    lemma JustStarted()
      requires c == 0 && a == 0x1_0000 && sc == zc == 0 && ct == 11 && buffer == -1
      requires start == out && data == [] && history == [] && GoodStats(stats[..]) && entry == State(FULL, stats[..])
      ensures Valid()
    {
      assert out + [] == out;
      Pow2Table();
    }

    // "One final overflow has to be handled", or not.
    method SettleAll(ghost q: Interval)
      requires OutputOk() && BelowTop(q) && q.range > 0
      requires Conserves(q, Value(Digits()), |Digits()|, c, q.range, 0)
      modifies this`out, this`data, this`zc, this`sc, this`buffer
      ensures out == start + Stuff(data) && (data != [] ==> data[|data| - 1] != 0)
      ensures |data + Repeat(0, zc)| == |old(Digits())|
      ensures Value(data + Repeat(0, zc)) * 0x800_0000 + c % 0x800_0000 == old(Value(Digits())) * 0x800_0000 + c
    {
      hide Value, Stuff, DigitsOf;
      CarryFindsBuffer(q);
      Pow2Table();
      if c >= 0x800_0000 {
        ResolveCarry();
      } else {
        ResolveNoCarry();
      }
    }

    // "Output final bytes only if they are not 0x00"
    method SendFinalBytes(rest: nat) returns (ghost k: nat)
      requires rest < 0x800_0000 && rest % 0x800 == 0
      requires out == start + Stuff(data) && (data != [] ==> data[|data| - 1] != 0)
      modifies this`out, this`data, this`zc
      ensures out == start + Stuff(data) && (data != [] ==> data[|data| - 1] != 0)
      ensures old(data + Repeat(0, zc)) + [rest / 0x8_0000, rest / 0x800 % 0x100] == data + Repeat(0, k)
    {
      RestBytes(rest);
      if rest == 0 {
        k := zc + 2;
        assert data + Repeat(0, zc) + [0, 0] == data + Repeat(0, k);
      } else {
        k := SendTwo(rest / 0x8_0000, rest / 0x800 % 0x100);
      }
    }

    method SendTwo(b1: byte, b2: byte) returns (ghost k: nat)
      requires b1 != 0 || b2 != 0
      requires out == start + Stuff(data) && (data != [] ==> data[|data| - 1] != 0)
      modifies this`out, this`data, this`zc
      ensures out == start + Stuff(data) && data != [] && data[|data| - 1] != 0
      ensures old(data + Repeat(0, zc)) + [b1, b2] == data + Repeat(0, k)
    {
      FlushZeros();
      EmitData(b1);
      k := 1;
      if b2 != 0 {
        EmitData(b2);
        k := 0;
      }
    }
  }
}
