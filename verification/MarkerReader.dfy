// jdmarker.c: the routines that read the tables and headers. Each of them either takes a
// whole segment or leaves the place where it starts alone.
module MarkerReader {
  import opened Bytes
  import opened NaturalOrders
  import opened HuffGen
  import opened Markers

  datatype Error = BadLength | BadQuantIndex | BadHuffIndex | BadHuffTable | BadArithIndex | BadArithValue
                 | DuplicateFrame | EmptyImage | NoFrame | BadComponent

  datatype Outcome = Read | Suspended | Failed(error: Error)

  datatype Slot = Null | Slot(tbl: HuffTbl)

  // The length that the segment at pos gives itself.
  function Declared(input: seq<byte>, pos: nat): nat
    requires pos + 2 <= |input|
  {
    Word(input[pos], input[pos + 1])
  }

  // The bytes s come next.
  predicate Next(input: seq<byte>, pos: nat, s: seq<byte>) {
    pos + |s| <= |input| && input[pos..pos + |s|] == s
  }

  lemma NextPart(input: seq<byte>, pos: nat, a: seq<byte>, b: seq<byte>)
    requires Next(input, pos, a + b)
    ensures Next(input, pos, a) && Next(input, pos + |a|, b)
  {
    var s := input[pos..pos + |a + b|];
    assert s[..|a|] == a && s[|a|..] == b;
    assert input[pos..pos + |a|] == s[..|a|] && input[pos + |a|..pos + |a| + |b|] == s[|a|..];
  }

  // INPUT_BYTE; fails when the source has no more.
  method InputByte(input: seq<byte>, next0: nat, ghost s: seq<byte>) returns (ok: bool, v: byte, next: nat)
    requires next0 <= |input|
    ensures ok <==> next0 < |input|
    ensures ok ==> v == input[next0] && next == next0 + 1
    ensures s != [] && Next(input, next0, s) ==> ok && v == s[0] && Next(input, next, s[1..])
  {
    if next0 == |input| {
      return false, 0, next0;
    }
    if s != [] && Next(input, next0, s) {
      assert s == [s[0]] + s[1..];
      NextPart(input, next0, [s[0]], s[1..]);
      assert input[next0..next0 + 1][0] == s[0];
    }
    ok, v, next := true, input[next0], next0 + 1;
  }

  // INPUT_2BYTES
  method Input2Bytes(input: seq<byte>, next0: nat, ghost s: seq<byte>) returns (ok: bool, v: nat, next: nat)
    requires next0 <= |input|
    ensures ok <==> next0 + 2 <= |input|
    ensures ok ==> v == Declared(input, next0) < 0x1_0000 && next == next0 + 2
    ensures |s| >= 2 && Next(input, next0, s) ==> ok && v == Word(s[0], s[1]) && Next(input, next, s[2..])
  {
    var hi, lo;
    v, next := 0, next0;
    ok, hi, next := InputByte(input, next0, s);
    if ok {
      ok, lo, next := InputByte(input, next, if s == [] then [] else s[1..]);
      v := if ok then Word(hi, lo) else 0;
      if |s| >= 2 { assert s[1..][1..] == s[2..]; }
    }
  }

  // What the payload of a segment looks like when its length has been read.
  lemma AfterLength(payload: seq<byte>)
    requires |payload| + 2 < 0x1_0000
    ensures Word(Segment(payload)[0], Segment(payload)[1]) == |payload| + 2 && Segment(payload)[2..] == payload
  {
  }

  class MarkerReader {
    const input: seq<byte>          // what has arrived
    var pos: nat                    // the restart point
    var quant: seq<seq<nat>>        // empty for a table that there is not
    var dcHuff: seq<Slot>
    var acHuff: seq<Slot>
    var arith: Conditioning
    var restartInterval: nat
    var sawSof: bool
    var progressive: bool
    var frame: Frame
    var curComp: seq<nat>           // the components of the scan, by their place in the frame
    var dcTbl: seq<nat>             // the tables of each component
    var acTbl: seq<nat>
    var params: (nat, nat, nat, nat) // Ss, Se, Ah, Al
    var nextRestartNum: nat
    var inputScanNumber: nat

    predicate Valid() reads this {
      && pos <= |input|
      && |quant| == NUM_QUANT_TBLS && (forall i :: 0 <= i < NUM_QUANT_TBLS ==> quant[i] == [] || |quant[i]| == DCTSIZE2)
      && |dcHuff| == |acHuff| == NUM_HUFFMAN_TBLS
      && Sized(arith) && |dcTbl| == |acTbl| == |frame.comps|
    }

    // Initially there are no tables; get_soi sets the conditioning.
    constructor (input: seq<byte>, pos: nat)
      requires pos <= |input|
      ensures Valid() && this.input == input && this.pos == pos && !sawSof && restartInterval == 0
      ensures quant == seq(NUM_QUANT_TBLS, _ => []) && dcHuff == acHuff == seq(NUM_HUFFMAN_TBLS, _ => Null)
      ensures arith == Conditioning(seq(NUM_ARITH_TBLS, _ => 0), seq(NUM_ARITH_TBLS, _ => 1),
          seq(NUM_ARITH_TBLS, _ => 5))
    {
      this.input, this.pos := input, pos;
      quant := seq(NUM_QUANT_TBLS, _ => []);
      dcHuff, acHuff := seq(NUM_HUFFMAN_TBLS, _ => Null), seq(NUM_HUFFMAN_TBLS, _ => Null);
      arith := Conditioning(seq(NUM_ARITH_TBLS, _ => 0), seq(NUM_ARITH_TBLS, _ => 1), seq(NUM_ARITH_TBLS, _ => 5));
      restartInterval, sawSof, progressive := 0, false, false;
      frame, curComp, dcTbl, acTbl, params := Frame(0, 0, 0, []), [], [], [], (0, 0, 0, 0);
      nextRestartNum, inputScanNumber := 0, 0;
    }

    // A segment has been taken exactly when it was read: all of it, as long as it says.
    twostate predicate Took(r: Outcome)
      reads this
    {
      if r == Read then old(pos) + 2 <= |input| && pos == old(pos) + Declared(input, old(pos)) else pos == old(pos)
    }

    // A marker code at k, which is not a stuffed zero and not a fill byte.
    static predicate MarkerAt(input: seq<byte>, k: int) {
      0 <= k && k + 1 < |input| && input[k] == 0xFF && input[k + 1] != 0 && input[k + 1] != 0xFF
    }

    // next_marker: whatever comes before the next marker is skipped.
    method NextMarker() returns (r: Outcome, code: byte)
      requires Valid()
      modifies this`pos
      ensures Valid() && r in {Read, Suspended} && old(pos) <= pos
      ensures r == Read ==> old(pos) <= pos - 2 && MarkerAt(input, pos - 2) && code == input[pos - 1]
      ensures r == Read ==> forall k :: old(pos) <= k < pos - 2 ==> !MarkerAt(input, k)
      ensures r == Suspended ==> forall k :: old(pos) <= k < |input| ==> !MarkerAt(input, k)
    {
      var ok, next;
      code, next := 0, pos;
      while true
        invariant old(pos) <= pos == next <= |input| && forall k :: old(pos) <= k < next ==> !MarkerAt(input, k)
        decreases |input| - next
      {
        ok, code, next := InputByte(input, next, []);
        if !ok { return Suspended, 0; }
        while code != 0xFF
          invariant old(pos) <= pos == next - 1 < |input| && code == input[next - 1]
          invariant forall k :: old(pos) <= k < next - 1 ==> !MarkerAt(input, k)
          decreases |input| - next
        {
          pos := next;
          ok, code, next := InputByte(input, next, []);
          if !ok { return Suspended, 0; }
        }
        while code == 0xFF
          invariant old(pos) <= pos < next <= |input| && code == input[next - 1]
          invariant code != 0xFF ==> pos + 2 <= next && input[next - 2] == 0xFF
          invariant forall k :: old(pos) <= k < (if code == 0xFF then next - 1 else next - 2) ==> !MarkerAt(input, k)
          decreases |input| - next, if code == 0xFF then 1 else 0
        {
          ok, code, next := InputByte(input, next, []);
          if !ok { return Suspended, 0; }
        }
        pos := next;
        if code != 0 { return Read, code; }
      }
    }

    lemma TwoBack(v: nat)
      ensures Word(TwoBytes(v)[0], TwoBytes(v)[1]) == v % 0x1_0000
    {
    }

    // get_dri
    method GetDri(ghost interval: nat) returns (r: Outcome)
      requires Valid()
      modifies this`pos, this`restartInterval
      ensures Valid() && Took(r) && (r != Read ==> restartInterval == old(restartInterval))
      ensures Next(input, old(pos), Segment(TwoBytes(interval))) ==> r == Read && restartInterval == interval % 0x1_0000
    {
      hide Next, TwoBytes, Segment, Word, Sized;
      ghost var payload := TwoBytes(interval);
      TwoBack(interval);
      AfterLength(payload);
      var ok, length, next := Input2Bytes(input, pos, Segment(payload));
      if !ok { return Suspended; }
      if length != 4 { return Failed(BadLength); }
      var tmp;
      ok, tmp, next := Input2Bytes(input, next, payload);
      if !ok { return Suspended; }
      restartInterval := tmp;
      pos := next;
      r := Read;
    }

    // ---- get_dqt ---------------------------------------------------------------------------------------------------

    // What a table that was written leaves of the one that was there.
    static function Stored(was: seq<nat>, vals: seq<nat>): (t: seq<nat>)
      requires |vals| <= DCTSIZE2
      ensures |t| == DCTSIZE2
    {
      Filled(if |vals| < DCTSIZE2 then AllOnes() else if |was| == DCTSIZE2 then was else seq(DCTSIZE2, _ => 0),
             SideFor(|vals|),
             vals)
    }

    static predicate Fits(prec: nat, vals: seq<nat>) {
      && prec <= 1 && |vals| <= DCTSIZE2
      && forall i :: 0 <= i < |vals| ==> vals[i] < if prec == 1 then 0x1_0000 else 0x100
    }

    method ReadValue(prec: nat, next0: nat, ghost vals: seq<nat>, ghost i: nat) returns (ok: bool, tmp: nat, next: nat)
      requires next0 <= |input|
      ensures ok ==> next == next0 + (if prec != 0 then 2 else 1) <= |input|
      ensures Fits(prec, vals) && i < |vals| && Next(input, next0, ValueBytes(prec, vals[i..])) ==>
                ok && tmp == vals[i] && Next(input, next, ValueBytes(prec, vals[i + 1..]))
    {
      ghost var left := if i <= |vals| then ValueBytes(prec, vals[i..]) else [];
      if Fits(prec, vals) && i < |vals| { FirstValue(prec, vals, i); }
      if prec != 0 {
        ok, tmp, next := Input2Bytes(input, next0, left);
      } else {
        ok, tmp, next := InputByte(input, next0, left);
      }
    }

    // How many values the segment has, and the table as it is before they are put in.
    method StartTable(n: nat, prec: nat, length: nat) returns (count: nat)
      requires Valid() && n < NUM_QUANT_TBLS
      modifies this`quant
      ensures Valid() && quant == old(quant)[n := quant[n]] && |quant[n]| == DCTSIZE2
      ensures count == if prec != 0 then Least(length / 2, DCTSIZE2) else Least(length, DCTSIZE2)
      ensures if (prec != 0 && length < DCTSIZE2 * 2) || (prec == 0 && length < DCTSIZE2) then quant[n] == AllOnes()
              else quant[n] == if old(quant)[n] == [] then seq(DCTSIZE2, _ => 0) else old(quant)[n]
    {
      var reduced := if prec != 0 then length < DCTSIZE2 * 2 else length < DCTSIZE2;
      count := if !reduced then DCTSIZE2 else if prec != 0 then length / 2 else length;
      if quant[n] == [] { quant := quant[n := seq(DCTSIZE2, _ => 0)]; }
      if reduced { quant := quant[n := AllOnes()]; }
    }

    static function Least(a: nat, b: nat): nat { if a < b then a else b }

    // One table of a segment; length bytes are left of it after the table's number.
    method ReadTable(n: nat, prec: nat, length: nat, next0: nat, ghost vals: seq<nat>)
        returns (ok: bool, count: nat, next: nat)
      requires Valid() && n < NUM_QUANT_TBLS && next0 <= |input|
      modifies this`quant
      ensures Valid() && count * (if prec != 0 then 2 else 1) <= length
      ensures ok ==> next == next0 + count * (if prec != 0 then 2 else 1) <= |input|
      ensures Fits(prec, vals) && length == (prec + 1) * |vals| && Next(input, next0, ValueBytes(prec, vals)) ==>
                ok && count == |vals| && quant == old(quant)[n := Stored(old(quant)[n], vals)]
    {
      hide Entry, Fits, Next, ValueBytes;
      ghost var exp := Fits(prec, vals) && length == (prec + 1) * |vals| && Next(input, next0, ValueBytes(prec, vals));
      if exp { FitsMeans(prec, vals); }
      count := StartTable(n, prec, length);
      ghost var base := quant[n];
      var side := SideFor(count);
      next := next0;
      assert exp ==> count == |vals| && vals[..0] == [] && vals[0..] == vals;
      for i := 0 to count
        invariant Valid() && |quant[n]| == DCTSIZE2 && next == next0 + i * (if prec != 0 then 2 else 1) <= |input|
        invariant exp ==> Next(input, next, ValueBytes(prec, vals[i..]))
        invariant quant == old(quant)[n := quant[n]] && (exp ==> quant[n] == Filled(base, side, vals[..i]))
      {
        var tmp;
        ok, tmp, next := ReadValue(prec, next, vals, i);
        if !ok { return; }
        quant := quant[n := quant[n][Entry(side, i) := tmp]];
        if exp { assert vals[..i + 1][..i] == vals[..i]; }
      }
      ok := true;
      assert exp ==> vals[..count] == vals;
    }

    lemma FitsMeans(prec: nat, vals: seq<nat>)
      requires Fits(prec, vals)
      ensures prec <= 1 && |vals| <= DCTSIZE2
    {
    }

    lemma FirstValue(prec: nat, vals: seq<nat>, i: nat)
      requires prec <= 1 && i < |vals| && vals[i] < if prec == 1 then 0x1_0000 else 0x100
      ensures var b := ValueBytes(prec, vals[i..]);
              if prec == 1 then |b| >= 2 && Word(b[0], b[1]) == vals[i] && b[2..] == ValueBytes(prec, vals[i + 1..])
              else |b| >= 1 && b[0] == vals[i] && b[1..] == ValueBytes(prec, vals[i + 1..])
    {
      assert vals[i..][1..] == vals[i + 1..] && vals[i..][0] == vals[i];
    }

    static lemma QuantParts(e: QuantEntry)
      requires GoodQuantEntry(e)
      ensures var b := QuantBytes(e);
              && e.index < NUM_QUANT_TBLS && b[0] / 16 == e.prec && b[0] % 16 == e.index
              && b[1..] == ValueBytes(e.prec, e.vals)
              && |b| == 1 + (e.prec + 1) * |e.vals| && |b| + 2 < 0x1_0000 && e.prec <= 1 && Fits(e.prec, e.vals)
    {
    }

    // get_dqt: for what emit_dqt writes.
    method GetDqt(ghost e: QuantEntry) returns (r: Outcome)
      requires Valid() && GoodQuantEntry(e)
      modifies this`pos, this`quant
      ensures Valid() && Took(r)
      ensures Next(input, old(pos), Segment(QuantBytes(e))) ==>
                r == Read && quant == old(quant)[e.index := Stored(old(quant)[e.index], e.vals)]
    {
      hide Entry, ValueBytes, Stored, Next, QuantBytes, Fits, GoodQuantEntry;
      QuantParts(e);
      ghost var payload := QuantBytes(e);
      ghost var exp := Next(input, pos, Segment(payload));
      AfterLength(payload);
      var ok, declared, next := Input2Bytes(input, pos, Segment(payload));
      if !ok { return Suspended; }
      var length := declared as int - 2;
      while length > 0
        invariant Valid() && next <= |input| && next + length == pos + declared && pos == old(pos)
        invariant exp ==> (length == |payload| && Next(input, next, payload) && quant == old(quant))
                          || (length == 0 && quant == old(quant)[e.index := Stored(old(quant)[e.index], e.vals)])
      {
        length := length - 1;
        var v;
        ok, v, next := InputByte(input, next, payload);
        if !ok { return Suspended; }
        var prec, n := v / 16, v % 16;
        if n >= NUM_QUANT_TBLS { return Failed(BadQuantIndex); }
        var count;
        ok, count, next := ReadTable(n, prec, length, next, e.vals);
        if !ok { return Suspended; }
        length := length - count;
        if prec != 0 { length := length - count; }
      }
      if length != 0 { return Failed(BadLength); }
      pos := next;
      r := Read;
    }

    // ---- get_dht ---------------------------------------------------------------------------------------------------

    // The table as it was sent; the symbols beyond those that have codes are arbitrary.
    static predicate SameTable(slot: Slot, t: HuffTbl)
      requires Sendable(t)
    {
      slot.Slot? && |slot.tbl.huffval| == 256 && slot.tbl.bits == [0] + t.bits[1..]
          && slot.tbl.huffval[..Codes(t.bits)] == t.huffval[..Codes(t.bits)]
    }

    method ReadBytes(n: nat, next0: nat, ghost s: seq<byte>, ghost more: seq<byte>)
        returns (ok: bool, v: seq<nat>, next: nat)
      requires next0 <= |input|
      ensures ok ==> |v| == n && next == next0 + n <= |input|
      ensures |s| == n && Next(input, next0, s + more) ==> ok && v == s && Next(input, next, more)
    {
      v, next, ok := [], next0, true;
      ghost var exp := |s| == n && Next(input, next0, s + more);
      for i := 0 to n
        invariant |v| == i && next == next0 + i <= |input|
        invariant exp ==> v == s[..i] && Next(input, next, s[i..] + more)
      {
        var b;
        ok, b, next := InputByte(input, next, if exp then s[i..] + more else []);
        if !ok { return; }
        if exp { assert (s[i..] + more)[1..] == s[i + 1..] + more; }
        v := v + [b];
      }
      if exp { assert s[n..] + more == more && s[..n] == s; }
    }

    method GetDht(ghost index: nat, ghost isAC: bool, ghost t: HuffTbl) returns (r: Outcome)
      requires Valid() && index < NUM_HUFFMAN_TBLS && Sendable(t)
      modifies this`pos, this`dcHuff, this`acHuff
      ensures Valid() && Took(r)
      ensures Next(input, old(pos), Segment(HuffBytes(index, isAC, t))) ==>
                && r == Read && SameTable(if isAC then acHuff[index] else dcHuff[index], t)
                && (if isAC then dcHuff == old(dcHuff) && acHuff == old(acHuff)[index := acHuff[index]]
                    else acHuff == old(acHuff) && dcHuff == old(dcHuff)[index := dcHuff[index]])
    {
      hide Sendable, SameTable;
      ghost var payload := HuffBytes(index, isAC, t);
      ghost var exp := Next(input, pos, Segment(payload));
      CodesFit(t);
      AfterLength(payload);
      var ok, declared, next := Input2Bytes(input, pos, Segment(payload));
      if !ok { return Suspended; }
      var length := declared as int - 2;
      while length > 16
        invariant Valid() && next <= |input| && next + length == pos + declared && pos == old(pos)
        invariant exp ==>
            (length == |payload| && Next(input, next, payload) && dcHuff == old(dcHuff) && acHuff == old(acHuff))
                || (length == 0 && SameTable(if isAC then acHuff[index] else dcHuff[index], t)
                              && (if isAC then dcHuff == old(dcHuff) && acHuff == old(acHuff)[index := acHuff[index]]
                                  else acHuff == old(acHuff) && dcHuff == old(dcHuff)[index := dcHuff[index]]))
        decreases length
      {
        ghost var first := exp && length == |payload|;
        var tbl, cls;
        r, cls, tbl, next := ReadHuffTable(length, next, index, isAC, t);
        if r != Read { return; }
        length := length - (17 + Codes(tbl.bits));
        var n: int := if cls / 16 % 2 == 1 then cls - 0x10 else cls;
        if n < 0 || n >= NUM_HUFFMAN_TBLS { return Failed(BadHuffIndex); }
        if cls / 16 % 2 == 1 {
          acHuff := acHuff[n := Slot(tbl)];
        } else {
          dcHuff := dcHuff[n := Slot(tbl)];
        }
      }
      if length != 0 { return Failed(BadLength); }
      pos := next;
      r := Read;
    }

    static lemma CodesFit(t: HuffTbl)
      requires Sendable(t)
      ensures Codes(t.bits) <= 256
    {
    }

    method ReadHuffTable(length: nat, next0: nat, ghost index: nat, ghost isAC: bool, ghost t: HuffTbl)
      returns (r: Outcome, cls: nat, tbl: HuffTbl, next: nat)
      requires next0 <= |input| && length > 16 && index < NUM_HUFFMAN_TBLS && Sendable(t)
      ensures r == Read ==>
          |tbl.bits| == 17 && cls < 256 && 17 + Codes(tbl.bits) <= length
          && next == next0 + 17 + Codes(tbl.bits) <= |input|
      ensures length == |HuffBytes(index, isAC, t)| && Next(input, next0, HuffBytes(index, isAC, t)) ==>
                r == Read && cls == index + (if isAC then 0x10 else 0) && SameTable(Slot(tbl), t)
                    && Codes(tbl.bits) == Codes(t.bits)
    {
      var ok;
      ghost var payload, lengths, vals := HuffBytes(index, isAC, t), Plain(t.bits[1..]),
          Plain(t.huffval[..Codes(t.bits)]);
      ghost var exp := length == |payload| && Next(input, next0, payload);
      tbl := HuffTbl([], []);
      assert payload[1..] == lengths + vals;
      ok, cls, next := InputByte(input, next0, payload);
      if !ok { return Suspended, cls, tbl, next; }
      var bits;
      ok, bits, next := ReadBytes(16, next, lengths, vals);
      if !ok { return Suspended, cls, tbl, next; }
      bits := [0] + bits;
      var count := 0;
      for i := 1 to 17
        invariant count == CodesUpTo(bits, i - 1)
      {
        count := count + bits[i];
      }
      if exp {
        assert bits == [0] + t.bits[1..];
        SameCodes(bits, t.bits, 16);
      }
      if count > 256 || count > length - 17 { return Failed(BadHuffTable), cls, tbl, next; }
      var some;
      assert vals + [] == vals;
      ok, some, next := ReadBytes(count, next, vals, []);
      if !ok { return Suspended, cls, tbl, next; }
      var huffval := new nat[256];
      for i := 0 to count
        invariant forall k :: 0 <= k < i ==> huffval[k] == some[k]
      {
        huffval[i] := some[i];
      }
      tbl := HuffTbl(bits, huffval[..]);
      assert huffval[..][..count] == some;
      assert exp ==> vals == t.huffval[..Codes(t.bits)];
      r := Read;
    }

    lemma SameCodes(a: seq<nat>, b: seq<nat>, l: nat)
      requires |a| == |b| == 17 && l <= 16 && a == [0] + b[1..]
      ensures CodesUpTo(a, l) == CodesUpTo(b, l)
    {
      if l > 0 { SameCodes(a, b, l - 1); }
    }

    // ---- get_dac ---------------------------------------------------------------------------------------------------

    method GetDac(ghost s: seq<byte>) returns (r: Outcome)
      requires Valid() && |s| % 2 == 0 && |s| + 2 < 0x1_0000
      modifies this`pos, this`arith
      ensures Valid() && Took(r)
      ensures Next(input, old(pos), Segment(s)) ==>
                match TakeAll(old(arith), s)
                case Taken(c) => r == Read && arith == c
                case BadIndex => r == Failed(BadArithIndex)
                case BadValue => r == Failed(BadArithValue)
    {
      hide TakeEntry, TakeAll, Next, Sized;
      ghost var exp := Next(input, pos, Segment(s));
      AfterLength(s);
      var ok, declared, next := Input2Bytes(input, pos, Segment(s));
      if !ok { return Suspended; }
      var length := declared as int - 2;
      ghost var left := s;
      while length > 0
        invariant Valid() && next <= |input| && next + length == pos + declared && pos == old(pos)
        invariant exp ==>
            length == |left| && |left| % 2 == 0 && Next(input, next, left)
            && TakeAll(arith, left) == TakeAll(old(arith), s)
      {
        var index, val;
        ok, index, next := InputByte(input, next, left);
        if !ok { return Suspended; }
        ok, val, next := InputByte(input, next, if exp then left[1..] else []);
        if !ok { return Suspended; }
        length := length - 2;
        if exp {
          TakePair(arith, left);
          left := left[2..];
        }
        r := TakeOne(index, val);
        if r != Read { return; }
      }
      if length != 0 { return Failed(BadLength); }
      if exp { NothingTaken(arith); }
      pos := next;
      r := Read;
    }

    lemma TakePair(a: Conditioning, s: seq<byte>)
      requires Sized(a) && |s| % 2 == 0 && s != []
      ensures |s| >= 2 && s[1..][1..] == s[2..] && s[1..][0] == s[1] && |s[2..]| % 2 == 0
      ensures TakeAll(a, s) == var t := TakeEntry(a, s[0], s[1]); if t.Taken? then TakeAll(t.c, s[2..]) else t
    {
    }

    method TakeOne(index: byte, val: byte) returns (r: Outcome)
      requires Valid()
      modifies this`arith
      ensures Valid()
      ensures match TakeEntry(old(arith), index, val)
              case Taken(c) => r == Read && arith == c
              case BadIndex => r == Failed(BadArithIndex)
              case BadValue => r == Failed(BadArithValue)
    {
      if index >= 2 * NUM_ARITH_TBLS { return Failed(BadArithIndex); }
      if index >= NUM_ARITH_TBLS {
        arith := arith.(acK := arith.acK[index - NUM_ARITH_TBLS := val]);
      } else {
        arith := arith.(dcL := arith.dcL[index := val % 16], dcU := arith.dcU[index := val / 16]);
        if arith.dcL[index] > arith.dcU[index] { return Failed(BadArithValue); }
      }
      r := Read;
    }

    // ---- get_sof ---------------------------------------------------------------------------------------------------

    method GetSof(isProg: bool, ghost f: Frame) returns (r: Outcome)
      requires Valid() && GoodFrame(f)
      modifies this`pos, this`frame, this`sawSof, this`progressive, this`dcTbl, this`acTbl
      ensures Valid() && Took(r) && progressive == isProg && sawSof == (old(sawSof) || r == Read)
      ensures Next(input, old(pos), Segment(FrameBytes(f))) ==>
                if old(sawSof) then r == Failed(DuplicateFrame)
                else if f.height == 0 || f.width == 0 || f.comps == [] then r == Failed(EmptyImage)
                else r == Read && frame == f
    {
      hide GoodFrame, GoodComp, CompBytes, FrameBytes, Next, Segment, Word, Sized;
      ghost var exp := Next(input, pos, Segment(FrameBytes(f)));
      progressive := isProg;
      var ok, length, precision, height, width, n, next := ReadFrameStart(f);
      if !ok { return Suspended; }
      if sawSof { return Failed(DuplicateFrame); }
      if height == 0 || width == 0 || n == 0 { return Failed(EmptyImage); }
      if length != 8 + n * 3 { return Failed(BadLength); }
      var comps;
      ok, comps, next := ReadComps(n, next, f);
      if !ok { return Suspended; }
      frame := Frame(precision, height, width, comps);
      dcTbl, acTbl := seq(n, _ => 0), seq(n, _ => 0);
      sawSof := true;
      pos := next;
      r := Read;
    }

    method ReadFrameStart(ghost f: Frame)
        returns (ok: bool, length: nat, precision: nat, height: nat, width: nat, n: nat, next: nat)
      requires Valid() && GoodFrame(f)
      ensures ok ==> pos + 2 <= |input| && length == Declared(input, pos) && next == pos + 8 <= |input|
      ensures Next(input, pos, Segment(FrameBytes(f))) ==>
                && ok && length == 8 + 3 * |f.comps|
                && (precision, height, width, n) == (f.precision, f.height, f.width, |f.comps|)
                && Next(input, next, CompBytes(f.comps))
    {
      hide CompBytes, GoodComp, Next;
      ghost var s := FrameBytes(f);
      ghost var exp := Next(input, pos, Segment(s));
      FrameParts(f);
      AfterLength(s);
      precision, height, width, n := 0, 0, 0, 0;
      ok, length, next := Input2Bytes(input, pos, Segment(s));
      if !ok { return; }
      ok, precision, next := InputByte(input, next, s);
      if !ok { return; }
      ok, height, next := Input2Bytes(input, next, s[1..]);
      if !ok { return; }
      ok, width, next := Input2Bytes(input, next, s[1..][2..]);
      if !ok { return; }
      ok, n, next := InputByte(input, next, s[1..][2..][2..]);
    }

    lemma FrameParts(f: Frame)
      requires GoodFrame(f)
      ensures var s := FrameBytes(f);
              && s[0] == f.precision && Word(s[1..][0], s[1..][1]) == f.height
              && Word(s[1..][2..][0], s[1..][2..][1]) == f.width
              && s[1..][2..][2..][0] == |f.comps| && s[1..][2..][2..][1..] == CompBytes(f.comps) && |s| + 2 < 0x1_0000
    {
    }

    method ReadComps(n: nat, next0: nat, ghost f: Frame) returns (ok: bool, comps: seq<CompSpec>, next: nat)
      requires Valid() && GoodFrame(f) && next0 <= |input|
      ensures ok ==> |comps| == n && next == next0 + 3 * n <= |input|
      ensures n == |f.comps| && Next(input, next0, CompBytes(f.comps)) ==> ok && comps == f.comps
    {
      hide OneComp, Next;
      ghost var exp := n == |f.comps| && Next(input, next0, CompBytes(f.comps));
      comps, next, ok := [], next0, true;
      for ci := 0 to n
        invariant |comps| == ci && next == next0 + 3 * ci <= |input|
        invariant exp ==> comps == f.comps[..ci] && Next(input, next, CompBytes(f.comps[ci..]))
      {
        var c;
        if exp { assert f.comps[ci..][0] == f.comps[ci] && f.comps[ci..][1..] == f.comps[ci + 1..]; }
        ok, c, next := ReadComp(next,
                                if exp then f.comps[ci] else CompSpec(0, 0, 0, 0),
                                if exp then CompBytes(f.comps[ci + 1..]) else []);
        if !ok { return; }
        comps := comps + [c];
      }
      if exp { assert f.comps[..n] == f.comps; }
    }

    method ReadComp(next0: nat, ghost expected: CompSpec, ghost more: seq<byte>)
        returns (ok: bool, comp: CompSpec, next: nat)
      requires next0 <= |input| && GoodComp(expected)
      ensures ok ==> next == next0 + 3 <= |input|
      ensures Next(input, next0, OneComp(expected) + more) ==> ok && comp == expected && Next(input, next, more)
    {
      hide Next;
      var id, c, tq;
      comp := CompSpec(0, 0, 0, 0);
      ghost var s := OneComp(expected) + more;
      assert s[1..][1..][1..] == more;
      ok, id, next := InputByte(input, next0, s);
      if !ok { return; }
      ok, c, next := InputByte(input, next, s[1..]);
      if !ok { return; }
      ok, tq, next := InputByte(input, next, s[1..][1..]);
      comp := CompSpec(id, c / 16 % 16, c % 16, tq);
    }

    // ---- get_sos ---------------------------------------------------------------------------------------------------

    method ReadScanStart(ghost s: ScanHeader, ghost ids: seq<nat>) returns (ok: bool, length: nat, n: nat, next: nat)
      requires Valid() && GoodScanHeader(s, ids)
      ensures ok ==> pos + 2 <= |input| && length == Declared(input, pos) && next == pos + 3 <= |input|
      ensures Next(input, pos, Segment(ScanBytes(s, ids))) ==>
                && ok && length == 6 + 2 * |s.comps| && n == |s.comps| <= MAX_COMPS_IN_SCAN
                && Next(input, next, ScanCompBytes(s.comps, ids) + ParamBytes(s))
    {
      hide Next, ScanCompBytes, ParamBytes, GoodScanComp;
      ghost var b := ScanBytes(s, ids);
      AfterLength(b);
      assert b[0] == |s.comps| && b[1..] == ScanCompBytes(s.comps, ids) + ParamBytes(s);
      n := 0;
      ok, length, next := Input2Bytes(input, pos, Segment(b));
      if !ok { return; }
      ok, n, next := InputByte(input, next, b);
    }

    // The place in the frame of the first component with this number.
    method FindComponent(cc: byte) returns (ci: nat)
      requires Valid()
      ensures ci == FirstWith(FrameIds(frame), cc)
    {
      ghost var ids := FrameIds(frame);
      ci := 0;
      while ci < |frame.comps| && frame.comps[ci].id != cc
        invariant ci <= |ids| && FirstWith(ids, cc) == ci + FirstWith(ids[ci..], cc)
      {
        assert ids[ci..][1..] == ids[ci + 1..];
        ci := ci + 1;
      }
    }

    // The component-spec parameters
    method ReadScanComps(n: nat, next0: nat, ghost s: ScanHeader, ghost more: seq<byte>) returns (r: Outcome, next: nat)
      requires Valid() && GoodScanHeader(s, FrameIds(frame)) && next0 <= |input|
      modifies this`curComp, this`dcTbl, this`acTbl
      ensures Valid() && (r == Read ==> next == next0 + 2 * n <= |input| && |curComp| == n)
      ensures var ids := FrameIds(frame);
              n == |s.comps| && Next(input, next0, ScanCompBytes(s.comps, ids) + more) ==>
                && r == Read && curComp == FirstOnes(s.comps, ids) && Next(input, next, more)
                && dcTbl == Assigned(old(dcTbl), curComp, DcTbls(s.comps))
                && acTbl == Assigned(old(acTbl), curComp, AcTbls(s.comps))
    {
      hide Next, ScanCompBytes, GoodScanComp, FirstOnes, Assigned, DcTbls, AcTbls, FrameIds;
      ghost var ids := FrameIds(frame);
      ghost var exp := n == |s.comps| && Next(input, next0, ScanCompBytes(s.comps, ids) + more);
      curComp, next, r := [], next0, Read;
      if exp { NoneFound(s.comps, ids, dcTbl, acTbl); }
      for i := 0 to n
        invariant Valid() && |curComp| == i && next == next0 + 2 * i <= |input| && r == Read
        invariant exp ==> Next(input, next, ScanCompBytes(s.comps[i..], ids) + more)
        invariant exp ==> FoundSoFar(s.comps, ids, i, curComp, old(dcTbl), dcTbl, old(acTbl), acTbl)
      {
        if exp {
          FoundStep(s.comps, ids, i, curComp, old(dcTbl), dcTbl, old(acTbl), acTbl);
          ScanCompStep(s.comps, ids, i, more);
        }
        r, next := ReadScanComp(next,
                                if exp then s.comps[i] else ScanComp(0, 0, 0),
                                exp,
                                if exp then ScanCompBytes(s.comps[i + 1..], ids) + more else []);
        if r != Read { return; }
      }
      if exp { AllFound(s.comps, ids, curComp, old(dcTbl), dcTbl, old(acTbl), acTbl, more); }
    }

    method ReadScanComp(next0: nat, ghost c: ScanComp, ghost exp: bool, ghost more: seq<byte>)
        returns (r: Outcome, next: nat)
      requires Valid() && next0 <= |input|
      requires exp ==> GoodScanComp(c, FrameIds(frame)) && Next(input, next0, OneScanComp(c, FrameIds(frame)) + more)
      modifies this`curComp, this`dcTbl, this`acTbl
      ensures Valid() && (r == Read ==> next == next0 + 2 <= |input| && |curComp| == |old(curComp)| + 1)
      ensures exp ==>
                var ci := Found(c, FrameIds(frame));
                && r == Read && curComp == old(curComp) + [ci] && dcTbl == old(dcTbl)[ci := c.td]
                && acTbl == old(acTbl)[ci := c.ta]
                && Next(input, next, more)
    {
      hide Next, FrameIds;
      ghost var ids := FrameIds(frame);
      ghost var b := if exp then OneScanComp(c, ids) + more else [];
      assert exp ==> |b| >= 2 && b[1..][1..] == more && b[0] == ids[c.ci] && b[1..][0] == 16 * c.td + c.ta;
      var ok, cc, tables;
      ok, cc, next := InputByte(input, next0, b);
      if !ok { return Suspended, next; }
      ok, tables, next := InputByte(input, next, if exp then b[1..] else []);
      if !ok { return Suspended, next; }
      var ci := FindComponent(cc);
      if ci == |frame.comps| { return Failed(BadComponent), next; }
      curComp := curComp + [ci];
      dcTbl := dcTbl[ci := tables / 16 % 16];
      acTbl := acTbl[ci := tables % 16];
      r := Read;
    }

    static ghost predicate FoundSoFar(comps: seq<ScanComp>, ids: seq<nat>, i: nat, cur: seq<nat>, dc0: seq<nat>,
        dc: seq<nat>, ac0: seq<nat>, ac: seq<nat>)
      requires i <= |comps| && |dc0| == |ac0| == |ids| && forall j :: 0 <= j < |comps| ==> GoodScanComp(comps[j], ids)
    {
      && cur == FirstOnes(comps, ids)[..i]
      && dc == Assigned(dc0, cur, DcTbls(comps)[..i]) && ac == Assigned(ac0, cur, AcTbls(comps)[..i])
    }

    lemma NoneFound(comps: seq<ScanComp>, ids: seq<nat>, dc: seq<nat>, ac: seq<nat>)
      requires |dc| == |ac| == |ids| && forall j :: 0 <= j < |comps| ==> GoodScanComp(comps[j], ids)
      ensures FoundSoFar(comps, ids, 0, [], dc, dc, ac, ac) && comps[0..] == comps
    {
    }

    lemma AllFound(comps: seq<ScanComp>, ids: seq<nat>, cur: seq<nat>, dc0: seq<nat>, dc: seq<nat>, ac0: seq<nat>,
        ac: seq<nat>,
                   more: seq<byte>)
      requires |dc0| == |ac0| == |ids| && forall j :: 0 <= j < |comps| ==> GoodScanComp(comps[j], ids)
      requires FoundSoFar(comps, ids, |comps|, cur, dc0, dc, ac0, ac)
      ensures cur == FirstOnes(comps, ids) && ScanCompBytes(comps[|comps|..], ids) + more == more
      ensures dc == Assigned(dc0, cur, DcTbls(comps)) && ac == Assigned(ac0, cur, AcTbls(comps))
    {
      hide Assigned, FirstWith;
      var n := |comps|;
      assert FirstOnes(comps, ids)[..n] == FirstOnes(comps, ids) && DcTbls(comps)[..n] == DcTbls(comps)
          && AcTbls(comps)[..n] == AcTbls(comps);
    }

    // One more component.
    lemma FoundStep(comps: seq<ScanComp>, ids: seq<nat>, i: nat, cur: seq<nat>, dc0: seq<nat>, dc: seq<nat>,
        ac0: seq<nat>, ac: seq<nat>)
      requires i < |comps| && |dc0| == |ac0| == |ids| && forall j :: 0 <= j < |comps| ==> GoodScanComp(comps[j], ids)
      requires FoundSoFar(comps, ids, i, cur, dc0, dc, ac0, ac)
      ensures var ci := Found(comps[i], ids);
              |dc| == |ac| == |ids| && FoundSoFar(comps, ids, i + 1, cur + [ci], dc0, dc[ci := comps[i].td], ac0,
                  ac[ci := comps[i].ta])
    {
      hide Assigned, FirstWith, GoodScanComp;
      var ci, all, td, ta := Found(comps[i], ids), FirstOnes(comps, ids), DcTbls(comps), AcTbls(comps);
      assert all[..i + 1] == all[..i] + [ci] && td[..i + 1] == td[..i] + [comps[i].td]
          && ta[..i + 1] == ta[..i] + [comps[i].ta];
      AssignedSnoc(dc0, cur, td[..i], ci, comps[i].td);
      AssignedSnoc(ac0, cur, ta[..i], ci, comps[i].ta);
    }

    lemma ScanCompStep(comps: seq<ScanComp>, ids: seq<nat>, i: nat, more: seq<byte>)
      requires i < |comps| && forall j :: 0 <= j < |comps| ==> GoodScanComp(comps[j], ids)
      ensures ScanCompBytes(comps[i..], ids) + more == OneScanComp(comps[i], ids)
          + (ScanCompBytes(comps[i + 1..], ids) + more)
    {
      hide GoodScanComp, OneScanComp;
      assert comps[i..][1..] == comps[i + 1..] && comps[i..][0] == comps[i];
    }

    // Ss, Se, Ah and Al
    method ReadParams(next0: nat, ghost s: ScanHeader) returns (ok: bool, next: nat)
      requires Valid() && next0 <= |input| && s.ss < 64 && s.se < 64 && s.ah < 16 && s.al < 16
      modifies this`params
      ensures Valid() && (ok ==> next == next0 + 3 <= |input|)
      ensures Next(input, next0, ParamBytes(s)) ==> ok && params == (s.ss, s.se, s.ah, s.al)
    {
      hide Next;
      ghost var b := ParamBytes(s);
      var c;
      ok, c, next := InputByte(input, next0, b);
      if !ok { return; }
      params := (c, params.1, params.2, params.3);
      ok, c, next := InputByte(input, next, b[1..]);
      if !ok { return; }
      params := (params.0, c, params.2, params.3);
      ok, c, next := InputByte(input, next, b[1..][1..]);
      if !ok { return; }
      params := (params.0, params.1, c / 16 % 16, c % 16);
    }

    method GetSos(ghost s: ScanHeader) returns (r: Outcome)
      requires Valid() && GoodScanHeader(s, FrameIds(frame))
      modifies this`pos, this`curComp, this`dcTbl, this`acTbl, this`params, this`nextRestartNum, this`inputScanNumber
      ensures Valid() && Took(r)
      ensures r == Read ==>
                && nextRestartNum == 0 && inputScanNumber == old(inputScanNumber) + (if curComp == [] then 0 else 1)
      ensures Next(input, old(pos), Segment(ScanBytes(s, FrameIds(frame)))) ==>
                if !sawSof then r == Failed(NoFrame)
                else if s.comps == [] && !progressive then r == Failed(BadLength)
                else
                  && r == Read && curComp == FirstOnes(s.comps, FrameIds(frame)) && params == (s.ss, s.se, s.ah, s.al)
                  && dcTbl == Assigned(old(dcTbl), curComp, DcTbls(s.comps))
                  && acTbl == Assigned(old(acTbl), curComp, AcTbls(s.comps))
    {
      hide Next, Segment, Word, Sized, GoodScanComp, ScanBytes, ScanCompBytes, ParamBytes, FrameIds, FirstOnes,
          Assigned, DcTbls, AcTbls;
      ghost var ids := FrameIds(frame);
      ghost var exp := Next(input, pos, Segment(ScanBytes(s, ids)));
      if !sawSof { return Failed(NoFrame); }
      var ok, length, n, next := ReadScanStart(s, ids);
      if !ok { return Suspended; }
      if length != n * 2 + 6 || n > MAX_COMPS_IN_SCAN || (n == 0 && !progressive) { return Failed(BadLength); }
      r, next := ReadScanComps(n, next, s, ParamBytes(s));
      if r != Read { return; }
      ok, next := ReadParams(next, s);
      if !ok { return Suspended; }
      nextRestartNum := 0;
      if n != 0 { inputScanNumber := inputScanNumber + 1; }
      pos := next;
      r := Read;
    }
  }
}
