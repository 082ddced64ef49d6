/** The anti-replay window: a 128-bit bitmap that slides with the highest number seen, standing
    in for the set of all numbers ever accepted. */
module Replay {
  import opened Bytes
  import opened Bits

  const WINDOW := 128

  type u128 = x: nat | Fits(x, WINDOW)

  /** The bitmap is a 128-bit word. */
  lemma BitmapIsAWord(x: nat)
    ensures Fits(x, WINDOW) <==> x < 0x1_0000_0000_0000_0000_0000_0000_0000_0000
  {
    FitsIff(x, WINDOW);
    WordSizes();
  }

  // ----- The simple filter -----

  /** Accept the first number; after that a number that was never accepted, unless it is 128 or
      more below one that was. */
  ghost predicate Admits(accepted: set<u64>, seqNum: u64) {
    seqNum !in accepted && forall a :: a in accepted ==> a < seqNum + 128
  }

  /** The bits of the bitmap, the least significant first. */
  function BitsOf(bitmap: u128): seq<bool> {
    seq(WINDOW, i requires 0 <= i < WINDOW => Bit(bitmap, i))
  }

  /** Whether highest - i exists and was accepted, for each i of the window. */
  ghost function WindowOf(highest: u64, accepted: set<u64>): seq<bool> {
    seq(WINDOW, i requires 0 <= i < WINDOW => highest - i in accepted)
  }

  ghost predicate BitsMatch(highest: u64, bitmap: u128, accepted: set<u64>) {
    BitsOf(bitmap) == WindowOf(highest, accepted)
  }

  lemma BitsMatchAt(highest: u64, bitmap: u128, accepted: set<u64>, i: nat)
    requires BitsMatch(highest, bitmap, accepted) && i < WINDOW
    ensures Bit(bitmap, i) <==> highest - i in accepted
  {
    assert BitsOf(bitmap)[i] == WindowOf(highest, accepted)[i];
  }

  lemma BitsMatchAll(highest: u64, bitmap: u128, accepted: set<u64>)
    requires forall i :: 0 <= i < WINDOW ==> (Bit(bitmap, i) <==> highest - i in accepted)
    ensures BitsMatch(highest, bitmap, accepted)
  {
  }

  ghost predicate Represents(highest: u64, bitmap: u128, started: bool, accepted: set<u64>) {
    && (started <==> accepted != {})
    && (started ==> highest in accepted && forall a :: a in accepted ==> a <= highest)
    && (started ==> BitsMatch(highest, bitmap, accepted))
  }

  // ----- Runs of the simple filter -----

  /** What the filter has accepted after a run of calls. */
  ghost function AcceptedBy(calls: seq<u64>): set<u64> {
    if calls == [] then {}
    else
      var earlier := AcceptedBy(calls[..|calls| - 1]);
      var last := calls[|calls| - 1];
      if Admits(earlier, last) then earlier + {last} else earlier
  }

  /** The k-th call of a run is answered with true. */
  ghost predicate AnsweredTrue(calls: seq<u64>, k: nat)
    requires k < |calls|
  {
    Admits(AcceptedBy(calls[..k]), calls[k])
  }

  lemma AcceptedByNext(calls: seq<u64>, last: u64)
    ensures AnsweredTrue(calls + [last], |calls|) <==> Admits(AcceptedBy(calls), last)
    ensures AcceptedBy(calls + [last])
         == if Admits(AcceptedBy(calls), last) then AcceptedBy(calls) + {last} else AcceptedBy(calls)
  {
    assert (calls + [last])[..|calls|] == calls;
  }

  // ----- The filter -----

  class ReplayFilter {
    var highestSeq: u64
    var bitmap: u128
    var started: bool
    /** Every number the filter was asked about, and those it accepted. */
    ghost var calls: seq<u64>
    ghost var accepted: set<u64>

    ghost predicate Valid()
      reads this
    {
      Represents(highestSeq, bitmap, started, accepted) && accepted == AcceptedBy(calls)
    }

    constructor ()
      ensures Valid() && calls == [] && accepted == {}
    {
      highestSeq := 0;
      bitmap := 0;
      started := false;
      calls := [];
      accepted := {};
    }

    /** True exactly if the number is new and no earlier one is 128 or more above it; that is how
        the simple filter answers on everything accepted so far. */
    method CheckAndMark(seqNum: u64) returns (ok: bool)
      requires Valid()
      modifies this
      ensures Valid()
      ensures calls == old(calls) + [seqNum]
      ensures ok <==> NewAndRecent(old(calls), seqNum)
      ensures ok <==> AnsweredTrue(calls, |old(calls)|)
      ensures ok <==> Admits(old(accepted), seqNum)
      ensures accepted == if ok then old(accepted) + {seqNum} else old(accepted)
    {
      hide Combine, Shl, BitsOf, WindowOf, AcceptedBy, NewAndRecent;
      AcceptedByNext(calls, seqNum);
      AdmitsIff(calls, seqNum);
      calls := calls + [seqNum];
      if !started {
        highestSeq := seqNum;
        bitmap := 1;
        started := true;
        accepted := {seqNum};
        FirstMark(seqNum);
        return true;
      }

      if seqNum > highestSeq {
        var diff := seqNum - highestSeq;
        if diff >= WINDOW {
          Wiped(highestSeq, bitmap, accepted, seqNum);
          bitmap := 1;
        } else {
          ShiftedIn(highestSeq, bitmap, accepted, diff);
          bitmap := ShiftIn(bitmap, diff);
        }
        highestSeq := seqNum;
        accepted := accepted + {seqNum};
        ok := true;
      } else {
        var delta := highestSeq - seqNum;
        if delta >= WINDOW {
          return false;
        }
        var bitMask := MaskOf(delta);
        InWindow(highestSeq, bitmap, accepted, delta);
        if Combine(And, bitmap, bitMask) != 0 {
          return false;
        }
        bitmap := SetBit(bitmap, delta);
        accepted := accepted + {seqNum};
        ok := true;
      }
    }
  }

  // ----- The word operations -----

  /** (bitmap << diff) | 1 */
  function ShiftIn(bitmap: u128, diff: nat): u128 {
    ShlFits(bitmap, diff, WINDOW);
    CombineFits(Or, Shl(bitmap, diff, WINDOW), 1, WINDOW);
    Combine(Or, Shl(bitmap, diff, WINDOW), 1)
  }

  /** 1 << delta */
  function MaskOf(delta: nat): u128 {
    ShlFits(1, delta, WINDOW);
    Shl(1, delta, WINDOW)
  }

  /** bitmap | (1 << delta) */
  function SetBit(bitmap: u128, delta: nat): u128 {
    CombineFits(Or, bitmap, MaskOf(delta), WINDOW);
    Combine(Or, bitmap, MaskOf(delta))
  }

  /** Shifting in slides the window and marks its newest place. */
  lemma ShiftInBit(bitmap: u128, diff: nat, i: nat)
    requires 0 < diff && i < WINDOW
    ensures Bit(ShiftIn(bitmap, diff), i) <==> i == 0 || (i >= diff && Bit(bitmap, i - diff))
  {
    CombineBit(Or, Shl(bitmap, diff, WINDOW), 1, i);
    ShlBit(bitmap, diff, WINDOW, i);
    OneBit(i);
  }

  lemma MaskBit(delta: nat, i: nat)
    requires i < WINDOW
    ensures Bit(MaskOf(delta), i) <==> i == delta
  {
    ShlBit(1, delta, WINDOW, i);
    if i >= delta {
      OneBit(i - delta);
    }
  }

  lemma SetBitBit(bitmap: u128, delta: nat, i: nat)
    requires i < WINDOW
    ensures Bit(SetBit(bitmap, delta), i) <==> i == delta || Bit(bitmap, i)
  {
    CombineBit(Or, bitmap, MaskOf(delta), i);
    MaskBit(delta, i);
  }

  /** Masking tests a single bit: the conjunction is zero if and only if that bit is clear. */
  lemma MaskTests(bitmap: u128, delta: nat)
    requires delta < WINDOW
    ensures Combine(And, bitmap, MaskOf(delta)) != 0 <==> Bit(bitmap, delta)
  {
    var masked := Combine(And, bitmap, MaskOf(delta));
    CombineBit(And, bitmap, MaskOf(delta), delta);
    MaskBit(delta, delta);
    ZeroBit(delta);
    if masked != 0 {
        CombineFits(And, bitmap, MaskOf(delta), WINDOW);
      var i := SomeBit(masked, WINDOW);
      CombineBit(And, bitmap, MaskOf(delta), i);
      MaskBit(delta, i);
    }
  }

  /** A word other than zero has a bit set. */
  lemma {:induction false} SomeBit(x: nat, width: nat) returns (i: nat)
    requires x > 0 && Fits(x, width)
    ensures i < width && Bit(x, i)
  {
    if x % 2 == 1 {
      i := 0;
    } else {
      var j := SomeBit(x / 2, width - 1);
      i := j + 1;
    }
  }

  // ----- Each branch keeps the representation -----

  lemma FirstMark(seqNum: u64)
    ensures Represents(seqNum, 1, true, {seqNum})
  {
    forall i | 0 <= i < WINDOW
      ensures Bit(1, i) <==> seqNum - i in {seqNum}
    {
      OneBit(i);
    }
    BitsMatchAll(seqNum, 1, {seqNum});
  }

  /** A number above the highest and within reach: shifted in. */
  lemma ShiftedIn(highest: u64, bitmap: u128, accepted: set<u64>, diff: nat)
    requires Represents(highest, bitmap, true, accepted) && 0 < diff < WINDOW && highest + diff < U64_LIMIT
    ensures Represents(highest + diff, ShiftIn(bitmap, diff), true, accepted + {highest + diff})
    ensures Admits(accepted, highest + diff)
  {
    var seqNum, shifted := highest + diff, ShiftIn(bitmap, diff);
    forall i | 0 <= i < WINDOW
      ensures Bit(shifted, i) <==> seqNum - i in accepted + {seqNum}
    {
      ShiftInBit(bitmap, diff, i);
      if i >= diff {
        BitsMatchAt(highest, bitmap, accepted, i - diff);
      }
    }
    BitsMatchAll(seqNum, shifted, accepted + {seqNum});
  }

  /** A number too far ahead: the bitmap is wiped. */
  lemma Wiped(highest: u64, bitmap: u128, accepted: set<u64>, seqNum: u64)
    requires Represents(highest, bitmap, true, accepted) && seqNum >= highest + WINDOW
    ensures Represents(seqNum, 1, true, accepted + {seqNum})
    ensures Admits(accepted, seqNum)
  {
    forall i | 0 <= i < WINDOW
      ensures Bit(1, i) <==> seqNum - i in accepted + {seqNum}
    {
      OneBit(i);
    }
    BitsMatchAll(seqNum, 1, accepted + {seqNum});
  }

  /** A number in the window: the masked bit tells whether it was accepted, and setting it
      records it. */
  lemma InWindow(highest: u64, bitmap: u128, accepted: set<u64>, delta: nat)
    requires Represents(highest, bitmap, true, accepted) && delta < WINDOW && delta <= highest
    ensures Combine(And, bitmap, MaskOf(delta)) != 0 <==> highest - delta in accepted
    ensures Represents(highest, SetBit(bitmap, delta), true, accepted + {highest - delta})
  {
    var marked := SetBit(bitmap, delta);
    MaskTests(bitmap, delta);
    BitsMatchAt(highest, bitmap, accepted, delta);
    forall i | 0 <= i < WINDOW
      ensures Bit(marked, i) <==> highest - i in accepted + {highest - delta}
    {
      SetBitBit(bitmap, delta, i);
      BitsMatchAt(highest, bitmap, accepted, i);
    }
    BitsMatchAll(highest, marked, accepted + {highest - delta});
  }

  // ----- Whole runs -----

  /** The number is answered true after these calls, said without the filter: it is new, and no
      earlier number, accepted or not, is 128 or more above it. */
  ghost predicate NewAndRecent(calls: seq<u64>, seqNum: u64) {
    forall i :: 0 <= i < |calls| ==> calls[i] != seqNum && calls[i] < seqNum + 128
  }

  /** A number that was called is accepted, or some accepted number is 128 or more above it. */
  ghost predicate AcceptedOrOld(accepted: set<u64>, seqNum: u64) {
    seqNum in accepted || exists a :: a in accepted && a >= seqNum + 128
  }

  lemma {:induction false} CallsAndAccepted(calls: seq<u64>)
    ensures forall a :: a in AcceptedBy(calls) ==> a in calls
    ensures forall i :: 0 <= i < |calls| ==> AcceptedOrOld(AcceptedBy(calls), calls[i])
  {
    if calls != [] {
      var front, last := calls[..|calls| - 1], calls[|calls| - 1];
      assert calls == front + [last];
      CallsAndAccepted(front);
      AcceptedByNext(front, last);
      forall i | 0 <= i < |calls|
        ensures AcceptedOrOld(AcceptedBy(calls), calls[i])
      {
        if i < |front| {
          assert AcceptedOrOld(AcceptedBy(front), front[i]);
        }
      }
    }
  }

  /** What the filter answers to any number after any calls. */
  lemma AdmitsIff(calls: seq<u64>, seqNum: u64)
    ensures Admits(AcceptedBy(calls), seqNum) <==> NewAndRecent(calls, seqNum)
  {
    CallsAndAccepted(calls);
    if Admits(AcceptedBy(calls), seqNum) {
      forall i | 0 <= i < |calls|
        ensures calls[i] != seqNum && calls[i] < seqNum + 128
      {
        assert AcceptedOrOld(AcceptedBy(calls), calls[i]);
      }
    }
  }

  /** All numbers are different, and none comes after one that is 128 or more larger. */
  ghost predicate Orderly(calls: seq<u64>) {
    forall i, j :: 0 <= i < j < |calls| ==> calls[i] != calls[j] && calls[i] < calls[j] as int + 128
  }

  /** No loss under bounded reordering, and the converse: a run is accepted in full if and only if
      it is orderly. */
  lemma NoLossIffOrderly(calls: seq<u64>)
    ensures (forall k :: 0 <= k < |calls| ==> AnsweredTrue(calls, k)) <==> Orderly(calls)
  {
    forall k | 0 <= k < |calls|
      ensures AnsweredTrue(calls, k) <==> NewAndRecent(calls[..k], calls[k])
    {
      AdmitsIff(calls[..k], calls[k]);
    }
    if forall k :: 0 <= k < |calls| ==> AnsweredTrue(calls, k) {
      forall i, j | 0 <= i < j < |calls|
        ensures calls[i] != calls[j] && calls[i] < calls[j] as int + 128
      {
        assert AnsweredTrue(calls, j);
        assert calls[..j][i] == calls[i];
      }
    }
  }

  /** Nothing is accepted that came before, accepted or not, nor 128 or more below what came. */
  lemma AtMostOnce(calls: seq<u64>, i: nat, j: nat)
    requires i < j < |calls| && AnsweredTrue(calls, j)
    ensures calls[i] != calls[j] && calls[i] < calls[j] as int + 128
  {
    AdmitsIff(calls[..j], calls[j]);
    assert calls[..j][i] == calls[i];
  }
}
