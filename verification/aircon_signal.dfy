/**
  From frame to infrared pulses: every bit becomes an (On, Off) pair of lengths,
  and the four segments (header, data, repeat spacer, trailer) are sent in an
  order that repeats header and data nRepeat + 1 times.
 */
module AirconSignal {
  import opened Binary
  import AirconDriver

  // Pulse lengths in microseconds; every segment alternates (On, Off).
  const HeaderSignal: seq<nat> := [3400, 1750]
  const BitSeparator: nat := 450
  const OneBit: nat := 1300
  const ZeroBit: nat := 420
  const RepeatSignal: seq<nat> := [440, 17100]
  const TrailSignal: seq<nat> := [440, 17100]

  /** `''.join(parts)`. */
  function Join(parts: seq<seq<char>>): seq<char>
  {
    if parts == [] then [] else parts[0] + Join(parts[1..])
  }

  /** The Off length of one bit: the zero length for '0', the one length for anything else. */
  function PulseFor(bit: char): nat
  {
    if bit == '0' then ZeroBit else OneBit
  }

  /** data is the pulse train of bits: the separator before every bit, then that bit's Off length. */
  ghost predicate IsDataSegmentOf(data: seq<nat>, bits: seq<char>)
  {
    |data| == 2 * |bits|
    && forall p :: 0 <= p < |bits| ==> data[2 * p] == BitSeparator && data[2 * p + 1] == PulseFor(bits[p])
  }

  /** 0, 1, 2, 0, 1, 2, ...: header, data, repeat spacer, n elements long. */
  function Cycle(n: nat): seq<nat>
  {
    seq(n, k => k % 3)
  }

  /** The order of segments: (header, data, spacer) nRepeat times, then header, data, trailer. */
  function SendOrder(nRepeat: int): seq<nat>
  {
    if nRepeat < 0 then [3] else Cycle(3 * nRepeat) + [0, 1, 3]
  }

  lemma CycleNext(n: nat)
    ensures Cycle(3 * (n + 1)) == Cycle(3 * n) + [0, 1, 2]
  {
    var longer, shorter := Cycle(3 * (n + 1)), Cycle(3 * n) + [0, 1, 2];
    forall k | 0 <= k < 3 * (n + 1)
      ensures longer[k] == shorter[k]
    {
      if k >= 3 * n {
        assert k % 3 == k - 3 * n;
      }
    }
  }

  /** Turns the frame into the four segments and the order in which they are sent. */
  method ConvertBitsToLength(allDataBytes: seq<seq<char>>, nRepeat: int)
    returns (allSignalTypes: seq<seq<nat>>, signalTypesOrder: seq<nat>)
    ensures |allSignalTypes| == 4
    ensures allSignalTypes[0] == HeaderSignal
    ensures IsDataSegmentOf(allSignalTypes[1], Join(allDataBytes))
    ensures allSignalTypes[2] == RepeatSignal && allSignalTypes[3] == TrailSignal
    ensures signalTypesOrder == SendOrder(nRepeat)
  {
    var fullDataSignal := Join(allDataBytes);
    var dataSignalAsLength: seq<nat> := [];
    for i := 0 to |fullDataSignal|
      invariant |dataSignalAsLength| == 2 * i
      invariant forall p :: 0 <= p < i ==>
                  dataSignalAsLength[2 * p] == BitSeparator && dataSignalAsLength[2 * p + 1] == PulseFor(fullDataSignal[p])
    {
      dataSignalAsLength := dataSignalAsLength + [BitSeparator];
      if fullDataSignal[i] == '0' {
        dataSignalAsLength := dataSignalAsLength + [ZeroBit];
      } else {
        dataSignalAsLength := dataSignalAsLength + [OneBit];
      }
    }
    allSignalTypes := [HeaderSignal, dataSignalAsLength, RepeatSignal, TrailSignal];

    var sentIndex := 0;
    signalTypesOrder := [];
    while sentIndex <= nRepeat
      invariant 0 <= sentIndex
      invariant nRepeat >= 0 ==> sentIndex <= nRepeat + 1
      invariant sentIndex <= nRepeat ==> signalTypesOrder == Cycle(3 * sentIndex)
      invariant nRepeat >= 0 && sentIndex == nRepeat + 1 ==> signalTypesOrder == Cycle(3 * nRepeat) + [0, 1]
      invariant nRepeat < 0 ==> signalTypesOrder == []
      decreases nRepeat + 1 - sentIndex
    {
      signalTypesOrder := signalTypesOrder + [0];
      signalTypesOrder := signalTypesOrder + [1];
      if sentIndex < nRepeat {
        signalTypesOrder := signalTypesOrder + [2];
        CycleNext(sentIndex);
      }
      sentIndex := sentIndex + 1;
    }
    signalTypesOrder := signalTypesOrder + [3];
  }

  // ---------------------------------------------------------------------------
  // The send order
  // ---------------------------------------------------------------------------

  /** The shape of the order: 3R + 3 entries, valid segment indices, a single trailer, at the end. */
  lemma SendOrderShape(nRepeat: int)
    ensures nRepeat < 0 ==> SendOrder(nRepeat) == [3]
    ensures nRepeat >= 0 ==> |SendOrder(nRepeat)| == 3 * nRepeat + 3
    ensures forall k :: 0 <= k < |SendOrder(nRepeat)| ==> SendOrder(nRepeat)[k] < 4
    ensures SendOrder(nRepeat)[|SendOrder(nRepeat)| - 1] == 3
    ensures forall k :: 0 <= k < |SendOrder(nRepeat)| - 1 ==> SendOrder(nRepeat)[k] != 3
    ensures nRepeat >= 0 ==> SendOrder(nRepeat)[0] == 0
  {
  }

  lemma {:induction false} CycleCounts(n: nat)
    ensures multiset(Cycle(3 * n))[0] == n && multiset(Cycle(3 * n))[1] == n
    ensures multiset(Cycle(3 * n))[2] == n && multiset(Cycle(3 * n))[3] == 0
  {
    if n > 0 {
      CycleCounts(n - 1);
      CycleNext(n - 1);
      assert multiset(Cycle(3 * n)) == multiset(Cycle(3 * (n - 1))) + multiset{0, 1, 2};
    }
  }

  /** Header and data go out R + 1 times, the spacer R times, the trailer once. */
  lemma SendOrderCounts(nRepeat: nat)
    ensures multiset(SendOrder(nRepeat))[0] == nRepeat + 1
    ensures multiset(SendOrder(nRepeat))[1] == nRepeat + 1
    ensures multiset(SendOrder(nRepeat))[2] == nRepeat
    ensures multiset(SendOrder(nRepeat))[3] == 1
  {
    CycleCounts(nRepeat);
    assert multiset(SendOrder(nRepeat)) == multiset(Cycle(3 * nRepeat)) + multiset{0, 1, 3};
  }

  /** A spacer only ever stands between a data segment and the next header; a header is always followed by data. */
  lemma SpacersBetweenRepetitions(nRepeat: int)
    ensures forall k :: 0 <= k < |SendOrder(nRepeat)| && SendOrder(nRepeat)[k] == 2 ==>
              0 < k < |SendOrder(nRepeat)| - 1 && SendOrder(nRepeat)[k - 1] == 1 && SendOrder(nRepeat)[k + 1] == 0
    ensures forall k :: 0 <= k < |SendOrder(nRepeat)| && SendOrder(nRepeat)[k] == 0 ==>
              k + 1 < |SendOrder(nRepeat)| && SendOrder(nRepeat)[k + 1] == 1
  {
    var order := SendOrder(nRepeat);
    if nRepeat >= 0 {
      var n := 3 * nRepeat;
      forall k | 0 <= k < |order| && order[k] == 2
        ensures 0 < k < |order| - 1 && order[k - 1] == 1 && order[k + 1] == 0
      {
        assert k < n && k % 3 == 2;
        assert order[k - 1] == (k - 1) % 3 == 1;
        if k + 1 < n {
          assert order[k + 1] == (k + 1) % 3 == 0;
        }
      }
      forall k | 0 <= k < |order| && order[k] == 0
        ensures k + 1 < |order| && order[k + 1] == 1
      {
        if k < n {
          assert k % 3 == 0 && order[k + 1] == (k + 1) % 3;
        }
      }
    }
  }

  lemma SendOrderExamples()
    ensures SendOrder(0) == [0, 1, 3]
    ensures SendOrder(1) == [0, 1, 2, 0, 1, 3]
    ensures SendOrder(-1) == [3]
  {
    assert Cycle(0) == [];
    CycleNext(0);
  }

  // ---------------------------------------------------------------------------
  // The data segment
  // ---------------------------------------------------------------------------

  /** Joining eight-character bytes: byte i, character j lands at 8 * i + j. */
  lemma {:induction false} JoinBytes(parts: seq<seq<char>>)
    requires forall i :: 0 <= i < |parts| ==> |parts[i]| == 8
    ensures |Join(parts)| == 8 * |parts|
    ensures forall i, j :: 0 <= i < |parts| && 0 <= j < 8 ==> Join(parts)[8 * i + j] == parts[i][j]
  {
    if parts != [] {
      JoinBytes(parts[1..]);
      forall i, j | 0 <= i < |parts| && 0 <= j < 8
        ensures Join(parts)[8 * i + j] == parts[i][j]
      {
        if i > 0 {
          assert Join(parts)[8 * i + j] == Join(parts[1..])[8 * (i - 1) + j];
        }
      }
    }
  }

  lemma FrameJoin(frame: seq<seq<char>>)
    requires AirconDriver.WellFormed(frame)
    ensures |Join(frame)| == 144
    ensures forall i, j :: 0 <= i < 18 && 0 <= j < 8 ==> Join(frame)[8 * i + j] == frame[i][j]
  {
    assert forall i :: 0 <= i < |frame| ==> |frame[i]| == 8 by {
      assert forall i :: 0 <= i < 18 ==> AirconDriver.IsByte(frame[i]);
    }
    JoinBytes(frame);
  }

  lemma FrameBitPulses(frame: seq<seq<char>>, data: seq<nat>, i: nat, j: nat)
    requires AirconDriver.WellFormed(frame)
    requires IsDataSegmentOf(data, Join(frame))
    requires i < 18 && j < 8
    ensures |data| == 288
    ensures data[2 * (8 * i + j)] == BitSeparator
    ensures data[2 * (8 * i + j) + 1] == (if frame[i][j] == '0' then ZeroBit else OneBit)
  {
    var bits := Join(frame);
    var p := 8 * i + j;
    FrameJoin(frame);
    assert p < |bits| && bits[p] == frame[i][j];
  }

  /** The data segment of a frame: 288 lengths, and bit j of byte i is told by the Off length at 2 * (8 * i + j) + 1. */
  lemma FrameDataSegment(frame: seq<seq<char>>, data: seq<nat>)
    requires AirconDriver.WellFormed(frame)
    requires IsDataSegmentOf(data, Join(frame))
    ensures |data| == 288
    ensures forall i, j :: 0 <= i < 18 && 0 <= j < 8 ==>
              data[2 * (8 * i + j)] == BitSeparator
              && data[2 * (8 * i + j) + 1] == (if frame[i][j] == '0' then ZeroBit else OneBit)
  {
    FrameBitPulses(frame, data, 0, 0);
    forall i, j | 0 <= i < 18 && 0 <= j < 8
      ensures data[2 * (8 * i + j)] == BitSeparator
      ensures data[2 * (8 * i + j) + 1] == (if frame[i][j] == '0' then ZeroBit else OneBit)
    {
      FrameBitPulses(frame, data, i, j);
    }
  }

  /** What a receiver reads back from a data segment: '0' for the zero length, '1' otherwise. */
  function DecodePulses(data: seq<nat>): seq<char>
  {
    if |data| < 2 then [] else [if data[1] == ZeroBit then '0' else '1'] + DecodePulses(data[2..])
  }

  /** The pulse encoding loses nothing: decoding the data segment of a bit string gives the bits back. */
  lemma {:induction false} DecodeDataSegment(data: seq<nat>, bits: seq<char>)
    requires IsBitString(bits)
    requires IsDataSegmentOf(data, bits)
    ensures DecodePulses(data) == bits
  {
    if bits != [] {
      assert data[1] == PulseFor(bits[0]);
      var rest := data[2..];
      forall p | 0 <= p < |bits| - 1
        ensures rest[2 * p] == BitSeparator && rest[2 * p + 1] == PulseFor(bits[1..][p])
      {
        assert rest[2 * p] == data[2 * (p + 1)] && rest[2 * p + 1] == data[2 * (p + 1) + 1];
      }
      DecodeDataSegment(rest, bits[1..]);
      assert bits == [bits[0]] + bits[1..];
    }
  }
}
