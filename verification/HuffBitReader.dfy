// The bit buffer of the Huffman decoder: jpeg_fill_bit_buffer, the bit-fetching
// macros, and the decoding of a symbol by table or bit by bit.
module HuffBitReader {
  import opened MarkerSearch
  import opened Bytes
  import opened BitString
  import opened EntropySegment
  import opened HuffCode
  import opened HuffBitWriter

  const MIN_GET_BITS := 25

  // ---- The reader -------------------------------------------------------------------------------------------

  // What the decoder keeps of the bit reader from one MCU to the next.
  datatype BitState = BitState(pos: nat, getBuffer: nat, bitsLeft: nat, marker: nat, insufficient: bool)

  predicate GoodState(s: BitState, n: nat) {
    s.getBuffer < WORD && s.bitsLeft <= 32 && s.pos <= n && s.marker < 256
  }

  // The bits still to come: those in the buffer, then those of the data up to the marker.
  function Coming(input: seq<byte>, s: BitState): seq<bool> {
    Bin(s.getBuffer, s.bitsLeft) + if s.marker == 0 then ByteBits(Segment(input, s.pos)) else []
  }

  // The marker that the first avail bytes run up to.
  function AheadOf(input: seq<byte>, avail: nat, s: BitState): Fetch
    requires avail <= |input|
  {
    if s.marker != 0 then Marker(if s.marker < 256 then s.marker else 0, s.pos) else MarkerAfter(input[..avail], s.pos)
  }

  // The marker at the end of the data at hand, if they reach that far, and the one at
  // the end of all data.
  datatype Horizon = Horizon(now: Fetch, end: Fetch)

  class BitReader {
    const input: seq<byte>     // all that the source will ever deliver
    const avail: nat           // how much of it is there at the moment
    var pos: nat
    var getBuffer: nat
    var bitsLeft: nat
    var marker: nat            // the marker found, or zero
    var insufficient: bool     // zero bits have been made up

    predicate Valid() reads this {
      avail <= |input| && GoodState(State(), |input|)
    }

    function State(): BitState reads this {
      BitState(pos, getBuffer, bitsLeft, marker, insufficient)
    }

    function Rest(): seq<bool> reads this {
      Coming(input, State())
    }

    function Ahead(): Horizon reads this
      requires avail <= |input|
    {
      Horizon(AheadOf(input, avail, State()), AheadOf(input, |input|, State()))
    }

    // Reading did not have to wait when the data ran up to a marker, and they still do.
    // The marker that comes in the end stays the same in any case.
    predicate Steady(before: Horizon, ok: bool) reads this {
      avail <= |input| && (before.now.Marker? ==> ok && Ahead().now == before.now) && Ahead().end == before.end
    }

    constructor (input: seq<byte>, avail: nat, s: BitState)
      requires avail <= |input| && GoodState(s, |input|)
      ensures Valid() && this.input == input && this.avail == avail && State() == s
    {
      this.input, this.avail := input, avail;
      pos, getBuffer, bitsLeft, marker, insufficient := s.pos, s.getBuffer, s.bitsLeft, s.marker, s.insufficient;
    }

    // Reads one byte of data or the marker; advances only when it finds one.
    method ReadByte() returns (f: Fetch)
      requires Valid()
      modifies this`pos
      ensures Valid() && f == FetchAt(input[..avail], old(pos))
      ensures pos == if f.Starved? then old(pos) else f.next
    {
      hide Coming;
      ghost var have := input[..avail];
      if pos >= avail {
        return Starved;
      }
      var next := pos + 1;
      var c := input[pos];
      if c == 0xFF {
        if next >= avail {
          return Starved;
        }
        c := input[next];
        next := next + 1;
        while c == 0xFF
          invariant pos + 1 < next <= avail && c == input[next - 1]
          invariant FetchAt(have, pos) == AfterFF(have, next - 1)
          decreases avail - next
        {
          if next >= avail {
            return Starved;
          }
          c := input[next];
          next := next + 1;
        }
        pos := next;
        if c != 0 {
          return Marker(c, next);
        }
        return Data(0xFF, next);
      }
      pos := next;
      f := Data(c, next);
    }

    // Fills the buffer up as far as it goes; zero bits are made up when fewer than
    // nbits are left before the marker. False means that the source has to wait.
    method Fill(nbits: nat) returns (ok: bool)
      requires Valid() && nbits <= MIN_GET_BITS
      modifies this
      ensures Valid()
      ensures Steady(old(Ahead()), ok)
      ensures ok ==> bitsLeft >= nbits && old(Rest()) <= Rest()
      ensures ok && !insufficient ==> Rest() == old(Rest()) && (bitsLeft < MIN_GET_BITS ==> |Rest()| == bitsLeft)
      ensures old(insufficient) ==> insufficient
      ensures insufficient && !old(insufficient) ==> |old(Rest())| < nbits
    {
      hide FetchAt, Bin, MarkerAfter, Segment, Pow2, ByteBits;
      if marker == 0 {
        while bitsLeft < MIN_GET_BITS
          invariant Valid() && marker == 0 && insufficient == old(insufficient)
          invariant Rest() == old(Rest()) && Steady(old(Ahead()), true)
          decreases MIN_GET_BITS - bitsLeft
        {
          ghost var before := State();
          var f := ReadByte();
          NextByte(input, avail, before, f);
          if f.Starved? {
            return false;
          }
          if f.Marker? {
            marker := f.code;
            break;
          }
          getBuffer := (getBuffer * 256 + f.b) % WORD;
          bitsLeft := bitsLeft + 8;
        }
      }
      if marker != 0 && nbits > bitsLeft {
        MadeUp(input, State());
        insufficient := true;
        getBuffer := (getBuffer * Pow2(MIN_GET_BITS - bitsLeft)) % WORD;
        bitsLeft := MIN_GET_BITS;
      }
      ok := true;
    }

    // The outcome x is the one that r describes, and the bits left over are those of r;
    // r is None when there were not enough bits.
    predicate Agrees(r: Option<Decoded>, x: nat) reads this {
      match r
      case Some(d) => !insufficient && x == d.value && Rest() == d.rest
      case None => insufficient
    }

    // CHECK_BIT_BUFFER and GET_BITS.
    method Get(n: nat) returns (ok: bool, x: nat)
      requires Valid() && 1 <= n <= 16
      modifies this
      ensures Valid() && Steady(old(Ahead()), ok)
      ensures ok ==> x < Pow2(n) && exists s :: old(Rest()) <= s && TakeBits(s, n) == Some(Decoded(x, Rest()))
      ensures old(insufficient) ==> insufficient
      ensures ok && !old(insufficient) ==> Agrees(TakeBits(old(Rest()), n), x)
    {
      hide Bin, Coming;
      ok, x := true, 0;
      if bitsLeft < n {
        ok := Fill(n);
        if !ok {
          return;
        }
      }
      ghost var s := State();
      bitsLeft := bitsLeft - n;
      x := Shr(getBuffer, bitsLeft) % Pow2(n);
      GetIsTake(input, s, n);
      assert TakeBits(Coming(input, s), n) == Some(Decoded(x, Rest()));
    }
  }

  // The next n bits as a number.
  function TakeBits(s: seq<bool>, n: nat): Option<Decoded> {
    if n <= |s| then Some(Decoded(Num(s[..n]), s[n..])) else None
  }

  lemma GetIsTake(input: seq<byte>, s: BitState, n: nat)
    requires n <= s.bitsLeft
    ensures TakeBits(Coming(input, s), n) ==
              Some(Decoded(Shr(s.getBuffer, s.bitsLeft - n) % Pow2(n), Coming(input, s.(bitsLeft := s.bitsLeft - n))))
  {
    hide Segment, ByteBits, Bin, Num, Shr, Pow2;
    var x, k := Shr(s.getBuffer, s.bitsLeft - n), s.bitsLeft - n;
    BinSplit(s.getBuffer, n, k);
    BinMod(x, n, n);
    NumBin(x % Pow2(n), n);
    var c := Coming(input, s);
    assert c[..n] == Bin(x, n);
    assert c[n..] == Coming(input, s.(bitsLeft := k));
  }

  // What the byte or marker just read says about the bits to come.
  lemma NextByte(input: seq<byte>, avail: nat, s: BitState, f: Fetch)
    requires avail <= |input| && GoodState(s, |input|) && s.marker == 0 && s.bitsLeft < MIN_GET_BITS
    requires f == FetchAt(input[..avail], s.pos)
    ensures f.Starved? ==> MarkerAfter(input[..avail], s.pos) == Starved
    ensures f.Marker? ==>
        f.code != 0 && MarkerAfter(input[..avail], s.pos) == f && Coming(input, s) == Bin(s.getBuffer, s.bitsLeft)
    ensures f.Data? ==>
              Coming(input, s) == Coming(input,
                  s.(pos := f.next, getBuffer := (s.getBuffer * 256 + f.b) % WORD, bitsLeft := s.bitsLeft + 8))
    ensures f.Data? ==> MarkerAfter(input[..avail], f.next) == MarkerAfter(input[..avail], s.pos)
    ensures f.Data? ==> MarkerAfter(input[..|input|], f.next) == MarkerAfter(input[..|input|], s.pos)
    ensures f.Marker? ==> MarkerAfter(input[..|input|], s.pos) == f
  {
    hide AfterFF, Bin;
    assert input[..|input|] == input;
    match f
    case Starved =>
    case Marker(c, next) =>
      FetchAvailable(input, avail, s.pos);
      MarkerNotZero(input[..avail], s.pos);
    case Data(b, next) =>
      FetchAvailable(input, avail, s.pos);
      Pow2Add(24, 8);
      Pow2Table();
      BinJoin(s.getBuffer, s.bitsLeft, b, 8);
      BinMod(s.getBuffer * 256 + b, s.bitsLeft + 8, 32);
      assert ([b] + Segment(input, next))[1..] == Segment(input, next);
  }

  // Zero bits are appended to what is in the buffer.
  lemma MadeUp(input: seq<byte>, s: BitState)
    requires s.marker != 0 && s.bitsLeft < MIN_GET_BITS
    ensures Coming(input, s) <=
              Coming(input, s.(
                getBuffer := (s.getBuffer * Pow2(MIN_GET_BITS - s.bitsLeft)) % WORD,
                bitsLeft := MIN_GET_BITS,
                insufficient := true))
  {
    var k := MIN_GET_BITS - s.bitsLeft;
    Pow2Mono(0, k);
    BinJoin(s.getBuffer, s.bitsLeft, 0, k);
    Pow2Add(24, 8);
    Pow2Table();
    BinMod(s.getBuffer * Pow2(k), MIN_GET_BITS, 32);
  }

  lemma MarkerNotZero(input: seq<byte>, pos: nat)
    ensures FetchAt(input, pos).Marker? ==> FetchAt(input, pos).code != 0
  {
    if pos < |input| && input[pos] == 0xFF { AfterFFNotZero(input, pos + 1); }
  }

  lemma AfterFFNotZero(input: seq<byte>, pos: nat)
    ensures AfterFF(input, pos).Marker? ==> AfterFF(input, pos).code != 0
    decreases |input| - pos
  {
    if pos < |input| && input[pos] == 0xFF { AfterFFNotZero(input, pos + 1); }
  }
}
