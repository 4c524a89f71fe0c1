// The progressive encoders of jchuff.c. One piece of code serves both passes: it
// counts the symbols when statistics are gathered and writes them otherwise.
module ProgEncoder {
  import opened MarkerSearch
  import opened Intervals
  import opened Bytes
  import opened BitString
  import opened HuffGen
  import opened HuffBitWriter
  import opened HuffTokens
  import opened HuffBlock
  import opened HuffSeqEncoder
  import opened HuffSeqGather
  import opened HuffSegments
  import opened HuffSeqScan
  import opened ProgTokens

  // The coefficients ss..se of a block in the order they are coded.
  function SubBand(order: seq<nat>, ss: nat, se: nat, block: seq<int>): (z: seq<int>)
    requires ss <= se < |order| && (forall i :: 0 <= i < |order| ==> order[i] < 64) && |block| == 64
    ensures |z| == se - ss + 1 && forall k :: 0 <= k < |z| ==> z[k] == block[order[ss + k]]
  {
    seq(se - ss + 1, k requires 0 <= k < se - ss + 1 => block[order[ss + k]])
  }

  predicate GoodBand(order: seq<nat>, ss: nat, se: nat) {
    1 <= ss <= se < |order| && se < 64 && forall i :: 0 <= i < |order| ==> order[i] < 64
  }

  class ProgEncoder {
    const tables: Tables
    const gather: bool
    const dest: seq<byte>             // what was there before the scan
    const w: BitWriter
    const dcCounts: seq<array<nat>>
    const acCounts: seq<array<nat>>
    const acTbl: nat
    const ss: nat                     // Ss of the scan: zero for DC scans
    const interval: nat               // MCUs between restart markers, zero for none
    const bitBuffer: array<bool>      // correction bits waiting for their run to be written
    var eobrun: nat                   // blocks waiting to be counted
    var be: nat                       // correction bits of theirs
    var lastDc: seq<int>              // DC predictions by component of the scan
    var restartsToGo: nat
    var nextRestartNum: nat
    ghost var segs: seq<seq<Token>>   // the symbols of the intervals that are complete
    ghost var log: seq<Token>         // what has been emitted or counted since

    ghost predicate Sound()
      reads this`log, this`segs, w, dcCounts, acCounts
    {
      && GoodTables(tables) && Counters(dcCounts, acCounts) && acTbl < NUM_HUFF_TBLS
      && w.Valid() && bitBuffer.Length == MAX_CORR_BITS && TokensOk(log)
      && (!gather ==> Wrote(tables, [], w.bits, log) && Closed(tables, dest, segs, w.dest))
      && (gather ==> forall i :: 0 <= i < NUM_HUFF_TBLS ==>
            Tallied(dcCounts[i][..], All(), true, i) && Tallied(acCounts[i][..], All(), false, i))
    }

    // All symbols of the scan so far.
    ghost function All(): seq<Token>
      reads this`log, this`segs
    {
      AllOf(segs) + log
    }

    // Restart markers are numbered in turn, modulo eight; while an MCU with a marker in
    // front of it is being encoded, the number is one behind.
    ghost predicate Numbered(behind: nat)
      reads this`segs, this`nextRestartNum
    {
      nextRestartNum < 8 && |segs| % 8 == (nextRestartNum + behind) % 8
    }

    ghost predicate Due()
      reads this`restartsToGo
    {
      interval > 0 && restartsToGo == 0
    }

    // Between blocks there is always room for the correction bits of one more.
    ghost predicate Valid()
      reads this, w, dcCounts, acCounts
    {
      Sound() && eobrun < MAX_EOBRUN && be <= MAX_CORR_BITS - DCTSIZE2 + 1 && (eobrun == 0 ==> be == 0)
    }

    constructor (tables: Tables, gather: bool, acTbl: nat, ss: nat, interval: nat, comps: nat, dest: seq<byte>)
      requires GoodTables(tables) && acTbl < NUM_HUFF_TBLS
      ensures Valid() && fresh(w) && fresh(dcCounts) && fresh(acCounts) && fresh(bitBuffer)
      ensures this.tables == tables && this.gather == gather && this.acTbl == acTbl && this.dest == dest
      ensures this.ss == ss && this.interval == interval && eobrun == 0 && be == 0 && log == [] && segs == []
      ensures lastDc == seq(comps, _ => 0) && restartsToGo == interval && Numbered(0)
    {
      hide Tallied, GoodTables, Wrote;
      this.tables, this.gather, this.acTbl, this.dest := tables, gather, acTbl, dest;
      this.ss, this.interval := ss, interval;
      w := new BitWriter(dest);
      var dc := NewCounters();
      var ac := NewCounters();
      dcCounts, acCounts := dc, ac;
      bitBuffer := new bool[MAX_CORR_BITS];
      eobrun, be, log, segs := 0, 0, [], [];
      lastDc := seq(comps, _ => 0);
      restartsToGo, nextRestartNum := interval, 0;
      new;
      WroteNothing(tables, []);
      assert All() == [];
      forall i | 0 <= i < NUM_HUFF_TBLS ensures Tallied(dcCounts[i][..], [], true, i)
          && Tallied(acCounts[i][..], [], false, i) {
        NothingTallied(dcCounts[i][..], true, i);
        NothingTallied(acCounts[i][..], false, i);
      }
    }

    // Emission of these symbols does not fail: when only counting it never does.
    ghost predicate Passes(toks: seq<Token>) {
      GoodTables(tables) && TokensOk(toks) && (gather || TokensCoded(tables, toks))
    }

    // emit_dc_symbol and emit_ac_symbol
    method EmitSymbol(isDC: bool, tbl: nat, sym: nat) returns (ok: bool)
      requires Sound() && tbl < NUM_HUFF_TBLS && sym < REAL
      modifies this`log, w, dcCounts, acCounts
      ensures ok <==> Passes([Sym(isDC, tbl, sym)])
      ensures ok ==> Sound() && log == old(log) + [Sym(isDC, tbl, sym)]
    {
      hide Tallied, GoodTables, Wrote, Counted, TokenCoded, Closed, AllOf;
      ghost var tok := Sym(isDC, tbl, sym);
      CodedAlone(tables, tok);
      if gather {
        if isDC {
          CountSymbol(dcCounts[tbl], sym, true, tbl);
        } else {
          CountSymbol(acCounts[tbl], sym, false, tbl);
        }
        forall i | 0 <= i < NUM_HUFF_TBLS
          ensures Tallied(dcCounts[i][..], All() + [tok], true, i) && Tallied(acCounts[i][..], All() + [tok], false, i)
        {
          if !(isDC && i == tbl) { OtherTable(dcCounts[i][..], [tok], true, i); }
          if !(!isDC && i == tbl) { OtherTable(acCounts[i][..], [tok], false, i); }
          TalliedMore(old(dcCounts[i][..]), dcCounts[i][..], All(), [tok], true, i);
          TalliedMore(old(acCounts[i][..]), acCounts[i][..], All(), [tok], false, i);
        }
        ok := true;
      } else {
        ghost var before := w.bits;
        ok := HuffSeqEncoder.EmitSymbol(w, tables, isDC, tbl, sym);
        if ok { WroteMore(tables, [], before, w.bits, log, [tok]); }
      }
      assert All() + [tok] == AllOf(segs) + (log + [tok]);
      log := log + [tok];
    }

    // emit_bits_e with raw bits: x is what the low bits of value amount to.
    method EmitBits(value: nat, size: nat, ghost x: nat)
      requires Sound() && 1 <= size <= 16 && Bin(value, size) == Bin(x, size)
      modifies this`log, w
      ensures Sound() && log == old(log) + [Raw(x, size)]
    {
      hide Tallied, GoodTables, Wrote, Bin, Closed, AllOf;
      ghost var tok := Raw(x, size);
      if gather {
        forall i | 0 <= i < NUM_HUFF_TBLS
          ensures Tallied(dcCounts[i][..], All() + [tok], true, i) && Tallied(acCounts[i][..], All() + [tok], false, i)
        {
          OtherTable(dcCounts[i][..], [tok], true, i);
          OtherTable(acCounts[i][..], [tok], false, i);
          TalliedMore(dcCounts[i][..], dcCounts[i][..], All(), [tok], true, i);
          TalliedMore(acCounts[i][..], acCounts[i][..], All(), [tok], false, i);
        }
      } else {
        ghost var before := w.bits;
        var _ := w.EmitBits(value, size);
        RawWrote(tables, before, w.bits, x, size);
        WroteMore(tables, [], before, w.bits, log, [tok]);
      }
      assert All() + [tok] == AllOf(segs) + (log + [tok]);
      log := log + [tok];
    }

    // emit_buffered_bits
    method EmitBuffered(start: nat, nbits: nat)
      requires Sound() && start + nbits <= bitBuffer.Length
      modifies this`log, w
      ensures Sound() && log == old(log) + RawBits(bitBuffer[start..start + nbits])
    {
      hide Sound;
      var i := 0;
      SoundBuffer();
      assert RawBits(bitBuffer[start..start + 0]) == [];
      while i < nbits
        invariant 0 <= i <= nbits && Sound() && log == old(log) + RawBits(bitBuffer[start..start + i])
      {
        var b := if bitBuffer[start + i] then 1 else 0;
        EmitBits(b, 1, Bit(bitBuffer[start + i]));
        assert bitBuffer[start..start + (i + 1)] == bitBuffer[start..start + i] + [bitBuffer[start + i]];
        assert RawBits(bitBuffer[start..start + (i + 1)]) == RawBits(bitBuffer[start..start + i])
            + [Raw(Bit(bitBuffer[start + i]), 1)];
        i := i + 1;
      }
    }

    lemma SoundBuffer()
      requires Sound()
      ensures bitBuffer.Length == MAX_CORR_BITS && GoodTables(tables) && acTbl < NUM_HUFF_TBLS && TokensOk(log)
    {
    }

    // The symbol for a run and the bits that belong to it. Its order of magnitude is at
    // most 14, as the standard demands.
    method EmitRunLength() returns (ok: bool)
      requires Sound() && 0 < eobrun <= MAX_EOBRUN
      modifies this`log, w, dcCounts, acCounts
      ensures acTbl < NUM_HUFF_TBLS
      ensures ok <==> Passes(EobTokens(acTbl, eobrun))
      ensures ok ==> Sound() && log == old(log) + EobTokens(acTbl, eobrun)
    {
      hide Sound, TokensCoded, GoodTables;
      SoundBuffer();
      EobSize(eobrun);
      var nbits := CountBitsNonzero(eobrun);
      nbits := nbits - 1;
      assert nbits <= 14;
      ghost var toks, sym := EobTokens(acTbl, eobrun), Sym(false, acTbl, 16 * nbits);
      assert toks == [sym] + toks[1..];
      SplitCoded(tables, [sym], toks[1..]);
      RawsPass(tables, toks[1..]);
      ok := EmitSymbol(false, acTbl, 16 * nbits);
      if ok && nbits != 0 {
        EmitBits(eobrun, nbits, eobrun);
      }
    }

    // emit_eobrun
    method EmitEobrun() returns (ok: bool)
      requires Sound() && eobrun <= MAX_EOBRUN && be <= MAX_CORR_BITS && (eobrun == 0 ==> be == 0)
      modifies this`log, this`eobrun, this`be, w, dcCounts, acCounts
      ensures bitBuffer.Length == MAX_CORR_BITS && acTbl < NUM_HUFF_TBLS
      ensures ok <==> Passes(RunTokens(acTbl, old(eobrun), bitBuffer[..old(be)]))
      ensures ok ==>
          Sound() && eobrun == 0 && be == 0 && log == old(log) + RunTokens(acTbl, old(eobrun), bitBuffer[..old(be)])
    {
      hide Sound, TokensCoded, GoodTables, EobTokens;
      SoundBuffer();
      ghost var head, raws := EobTokens(acTbl, eobrun), RawBits(bitBuffer[..be]);
      SplitCoded(tables, head, raws);
      RawsPass(tables, raws);
      if eobrun == 0 {
        NoRunTokens(tables, acTbl);
        assert raws == [] && log + ([] + []) == log;
        return true;
      }
      ok := EmitRunLength();
      if !ok {
        return;
      }
      eobrun := 0;
      EmitBuffered(0, be);
      assert bitBuffer[0..0 + be] == bitBuffer[..be];
      be := 0;
      assert log == old(log) + (head + raws);
    }

    // flush_bits_e and the marker.
    method FlushAndMark()
      requires Sound() && Numbered(0) && !gather
      modifies w
      ensures w.Valid() && Wrote(tables, [], w.bits, []) && Closed(tables, dest, segs + [log], w.dest)
    {
      hide Tallied, GoodTables, Wrote, Closed, AllOf, Counters;
      WroteBits(tables, w.bits, log);
      w.FlushBits();
      ghost var before, data := w.dest, w.data;
      w.PutMarker(RST0 + nextRestartNum);
      CloseOne(tables, dest, segs, before, log, data, w.out);
      WroteNothing(tables, []);
    }

    // They are left out when only statistics are gathered.
    method PutRestart()
      requires Sound() && Numbered(0)
      modifies this`log, this`segs, w
      ensures Sound() && log == [] && segs == old(segs) + [old(log)] && Numbered(1)
    {
      hide Tallied, GoodTables, Wrote, Closed, AllOf, w.Valid;
      AllOfSnoc(segs, log);
      OneBehind(|segs|, nextRestartNum);
      assert AllOf(segs) + log == AllOf(segs + [log]) + [];
      if !gather {
        FlushAndMark();
      }
      segs := segs + [log];
      log := [];
    }

    // emit_restart_e: what is waiting belongs to the interval that ends here.
    method EmitRestart() returns (ok: bool)
      requires Valid() && Numbered(0)
      modifies this`log, this`segs, this`eobrun, this`be, this`lastDc, w, dcCounts, acCounts
      ensures bitBuffer.Length == MAX_CORR_BITS && acTbl < NUM_HUFF_TBLS && old(be) <= MAX_CORR_BITS
          && old(eobrun) < MAX_EOBRUN
      ensures var run := RunTokens(acTbl, old(eobrun), bitBuffer[..old(be)]);
              && (ok <==> Passes(run))
              && (ok ==>
                  && Valid() && eobrun == 0 && be == 0 && log == [] && segs == old(segs) + [old(log) + run]
                  && Numbered(1)
                  && lastDc == if ss == 0 then seq(|old(lastDc)|, _ => 0) else old(lastDc))
    {
      hide Sound, Passes, RunTokens, Numbered;
      SoundBuffer();
      ok := EmitEobrun();
      if !ok {
        return;
      }
      PutRestart();
      if ss == 0 {
        lastDc := seq(|lastDc|, _ => 0);
      } else {
        eobrun := 0;
        be := 0;
      }
    }

    // How an MCU begins: with a restart marker in front of it when one is due.
    method BeginMcu() returns (ok: bool)
      requires Valid() && Numbered(0)
      modifies this`log, this`segs, this`eobrun, this`be, this`lastDc, w, dcCounts, acCounts
      ensures bitBuffer.Length == MAX_CORR_BITS && acTbl < NUM_HUFF_TBLS && old(be) <= MAX_CORR_BITS
          && old(eobrun) < MAX_EOBRUN
      ensures var run := RunTokens(acTbl, old(eobrun), bitBuffer[..old(be)]);
              && (ok <==> !Due() || Passes(run))
              && (ok && Due() ==>
                    && Valid() && eobrun == 0 && be == 0 && log == [] && segs == old(segs) + [old(log) + run]
                    && Numbered(1)
                    && lastDc == if ss == 0 then seq(|old(lastDc)|, _ => 0) else old(lastDc))
              && (ok && !Due() ==>
                    && Valid() && eobrun == old(eobrun) && be == old(be) && log == old(log) && segs == old(segs)
                    && Numbered(0)
                    && lastDc == old(lastDc))
    {
      hide Sound, Passes, RunTokens, Numbered;
      SoundBuffer();
      ok := true;
      if interval != 0 && restartsToGo == 0 {
        ok := EmitRestart();
      }
    }

    // How it ends: the counters of the restart interval are updated.
    method EndMcu()
      requires Numbered(if Due() then 1 else 0)
      modifies this`restartsToGo, this`nextRestartNum
      ensures Numbered(0) && restartsToGo == ToGoNext(interval, old(restartsToGo))
    {
      if interval != 0 {
        if restartsToGo == 0 {
          restartsToGo := interval;
          nextRestartNum := (nextRestartNum + 1) % 8;
        }
        restartsToGo := restartsToGo - 1;
      }
    }
  }

  lemma OneBehind(n: nat, num: nat)
    requires num < 8 && n % 8 == num % 8
    ensures (n + 1) % 8 == (num + 1) % 8
  {
  }

  lemma NoRunTokens(t: Tables, tbl: nat)
    requires GoodTables(t) && tbl < NUM_HUFF_TBLS
    ensures EobTokens(tbl, 0) == [] && TokensCoded(t, [])
  {
  }

  lemma RawWrote(t: Tables, before: seq<bool>, after: seq<bool>, x: nat, size: nat)
    requires GoodTables(t) && 1 <= size <= 16 && after == before + Bin(x, size)
    ensures Wrote(t, before, after, [Raw(x, size)])
  {
    WroteOne(t, before, after, Raw(x, size));
  }

  lemma CodedAlone(t: Tables, tok: Token)
    requires GoodTables(t) && TokenOk(tok)
    ensures TokensCoded(t, [tok]) <==> TokenCoded(t, tok)
  {
    assert [tok][0] == tok;
  }

  lemma RawsPass(t: Tables, toks: seq<Token>)
    requires GoodTables(t) && TokensOk(toks) && forall i :: 0 <= i < |toks| ==> toks[i].Raw?
    ensures TokensCoded(t, toks)
  {
  }
}
