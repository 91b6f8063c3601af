/**
 * Magstripe: card track pins sampled into three bit buffers, and the buffers drained as keyboard reports.
 */
module Magstripe {
  import opened CircularBitBuffer

  const TOTAL_TRACKS := 3

  datatype Key = KeyNone | Key1 | Key0 | KeyEnter

  /** One reading of the reader's lines (already inverted, so true means active). */
  datatype Status = Status(cardPresent: bool, clock: seq<bool>, data: seq<bool>) {
    predicate Valid() {
      |clock| == |data| == TOTAL_TRACKS
    }
  }

  ghost predicate ValidTrace(trace: seq<Status>) {
    trace != [] && AllValid(trace) && !trace[|trace| - 1].cardPresent
  }

  /** How many samples are taken before the card is seen to be gone. */
  function SwipeLength(trace: seq<Status>): (n: nat)
    ensures n <= |trace|
  {
    if trace == [] || !trace[0].cardPresent then 0 else 1 + SwipeLength(trace[1..])
  }

  ghost predicate AllValid(trace: seq<Status>) {
    forall i :: 0 <= i < |trace| ==> trace[i].Valid()
  }

  /** Is sample i a rising edge of the track's clock? The lines count as low before the first sample. */
  ghost predicate RisingEdge(trace: seq<Status>, track: nat, i: nat)
    requires i < |trace| && track < TOTAL_TRACKS && AllValid(trace)
  {
    trace[i].clock[track] && (i == 0 || !trace[i - 1].clock[track])
  }

  function EdgeBit(now: Status, prev: Status, track: nat): seq<bool>
    requires now.Valid() && prev.Valid() && track < TOTAL_TRACKS
  {
    if now.clock[track] && !prev.clock[track] then [now.data[track]] else []
  }

  /** The bits a swipe puts on a track: the data line at each rising clock edge among the first n samples. */
  ghost function TrackBits(trace: seq<Status>, track: nat, n: nat): seq<bool>
    requires n <= |trace| && track < TOTAL_TRACKS && AllValid(trace)
  {
    if n == 0 then []
    else TrackBits(trace, track, n - 1) + (if RisingEdge(trace, track, n - 1) then [trace[n - 1].data[track]] else [])
  }

  lemma {:induction false} TrackBitsGrow(trace: seq<Status>, track: nat, n: nat, m: nat)
    requires n <= m <= |trace| && track < TOTAL_TRACKS && AllValid(trace)
    ensures |TrackBits(trace, track, n)| <= |TrackBits(trace, track, m)|
  {
    if n < m {
      TrackBitsGrow(trace, track, n, m - 1);
    }
  }

  /** The card is present for exactly the first SwipeLength samples of a trace that ends without it. */
  lemma {:induction false} SwipeEnds(trace: seq<Status>)
    requires trace != [] && !trace[|trace| - 1].cardPresent
    ensures SwipeLength(trace) < |trace| && !trace[SwipeLength(trace)].cardPresent
    ensures forall i :: 0 <= i < SwipeLength(trace) ==> trace[i].cardPresent
  {
    if trace[0].cardPresent {
      SwipeEnds(trace[1..]);
    }
  }

  // ---------------------------------------------------------------- what the host should see

  function BitKeys(bits: seq<bool>): seq<Key> {
    seq(|bits|, i requires 0 <= i < |bits| => if bits[i] then Key1 else Key0)
  }

  /** The keys still to come from track `current` on: each track's bits and an ENTER. */
  function PendingKeys(tracks: seq<seq<bool>>, current: nat): seq<Key>
    decreases |tracks| - current
  {
    if current >= |tracks| then [] else BitKeys(tracks[current]) + [KeyEnter] + PendingKeys(tracks, current + 1)
  }

  /** The reports of n callback calls: every other one is a release report. */
  function Reports(keys: seq<Key>, releaseNext: bool, n: nat): (r: seq<Key>)
    ensures |r| == n
    decreases n
  {
    if n == 0 then []
    else if releaseNext then [KeyNone] + Reports(keys, false, n - 1)
    else if keys == [] then [KeyNone] + Reports(keys, true, n - 1)
    else [keys[0]] + Reports(keys[1..], true, n - 1)
  }

  /** One call's report. */
  function Report(keys: seq<Key>, release: bool): Key {
    if release || keys == [] then KeyNone else keys[0]
  }

  /** The keys left after one call. */
  function KeysAfter(keys: seq<Key>, release: bool): seq<Key> {
    if release || keys == [] then keys else keys[1..]
  }

  lemma ReportsStep(keys: seq<Key>, release: bool, n: nat)
    requires 0 < n
    ensures Reports(keys, release, n) == [Report(keys, release)] + Reports(KeysAfter(keys, release), !release, n - 1)
  {
  }

  function NonEmpty(reports: seq<Key>): seq<Key> {
    if reports == [] then []
    else (if reports[0] == KeyNone then [] else [reports[0]]) + NonEmpty(reports[1..])
  }

  lemma {:induction false} PendingHasNoNone(tracks: seq<seq<bool>>, current: nat)
    ensures KeyNone !in PendingKeys(tracks, current)
    decreases |tracks| - current
  {
    if current < |tracks| {
      PendingHasNoNone(tracks, current + 1);
    }
  }

  /** Enough calls deliver every key, in order, and nothing else. */
  lemma {:induction false} ReportsDeliver(keys: seq<Key>, releaseNext: bool, n: nat)
    requires KeyNone !in keys && 2 * |keys| <= n + (if releaseNext then 0 else 1)
    ensures NonEmpty(Reports(keys, releaseNext, n)) == keys
    decreases n
  {
    var r := Reports(keys, releaseNext, n);
    if 0 < n {
      if releaseNext {
        ReportsDeliver(keys, false, n - 1);
        assert r[1..] == Reports(keys, false, n - 1);
      } else if keys == [] {
        ReportsDeliver(keys, true, n - 1);
        assert r[1..] == Reports(keys, true, n - 1);
      } else {
        ReportsDeliver(keys[1..], true, n - 1);
        assert r[1..] == Reports(keys[1..], true, n - 1);
      }
    }
  }

  /** Two keys are never reported back to back. */
  lemma {:induction false} KeysSeparated(keys: seq<Key>, releaseNext: bool, n: nat, i: nat)
    requires i + 1 < n
    ensures Reports(keys, releaseNext, n)[i] == KeyNone || Reports(keys, releaseNext, n)[i + 1] == KeyNone
    decreases n
  {
    var keys', next := if releaseNext || keys == [] then keys else keys[1..], !releaseNext;
    var r := Reports(keys, releaseNext, n);
    assert r[1..] == Reports(keys', next, n - 1);
    if i == 0 {
      assert r[1] == Reports(keys', next, n - 1)[0];
    } else {
      KeysSeparated(keys', next, n - 1, i - 1);
    }
  }

  /** The keys to come depend on the tracks from `current` on only. */
  lemma {:induction false} PendingFrom(tracks: seq<seq<bool>>, other: seq<seq<bool>>, current: nat)
    requires |tracks| == |other| && forall i :: current <= i < |tracks| ==> tracks[i] == other[i]
    ensures PendingKeys(tracks, current) == PendingKeys(other, current)
    decreases |tracks| - current
  {
    if current < |tracks| {
      PendingFrom(tracks, other, current + 1);
    }
  }

  /** Taking the first bit of the current track takes the first key to come. */
  lemma PendingTake(tracks: seq<seq<bool>>, current: nat)
    requires current < |tracks| && tracks[current] != []
    ensures PendingKeys(tracks, current) != []
    ensures PendingKeys(tracks, current)[0] == if tracks[current][0] then Key1 else Key0
    ensures PendingKeys(tracks[current := tracks[current][1..]], current) == PendingKeys(tracks, current)[1..]
  {
    var bits := tracks[current];
    var taken := tracks[current := bits[1..]];
    PendingFrom(tracks, taken, current + 1);
    BitKeysTake(bits, [KeyEnter] + PendingKeys(tracks, current + 1));
    PendingOpens(tracks, current);
    PendingOpens(taken, current);
    hide PendingKeys, BitKeys;
  }

  lemma PendingOpens(tracks: seq<seq<bool>>, current: nat)
    requires current < |tracks|
    ensures PendingKeys(tracks, current) == BitKeys(tracks[current]) + ([KeyEnter] + PendingKeys(tracks, current + 1))
  {
  }

  lemma BitKeysTake(bits: seq<bool>, rest: seq<Key>)
    requires bits != []
    ensures BitKeys(bits) + rest == [if bits[0] then Key1 else Key0] + (BitKeys(bits[1..]) + rest)
  {
    assert BitKeys(bits) == [if bits[0] then Key1 else Key0] + BitKeys(bits[1..]);
  }

  // ---------------------------------------------------------------- the device

  /** One buffer in zeroed static storage, initialised at start-up. */
  method NewTrack(bytes: nat) returns (t: BitBuffer)
    requires 0 < 8 * bytes <= 0xFFF8
    ensures fresh(t) && fresh(t.data) && t.Valid() && t.contents == [] && t.Capacity() == 8 * bytes
  {
    t := new BitBuffer(bytes);
    t.Init();
  }

  class Reader {
    const tracks: seq<BitBuffer>
    var current: nat
    var isKeyReleaseReport: bool

    ghost const repr: set<object>
    ghost var contents: seq<seq<bool>>

    ghost predicate Valid()
      reads this, repr
    {
      && |tracks| == |contents| == TOTAL_TRACKS && current <= TOTAL_TRACKS && this !in repr
      && (forall i :: 0 <= i < TOTAL_TRACKS ==>
        tracks[i] in repr && tracks[i].data in repr && tracks[i].Valid() && tracks[i].contents == contents[i])
      && (forall i, j :: 0 <= i < j < TOTAL_TRACKS ==> tracks[i] != tracks[j] && tracks[i].data != tracks[j].data)
    }

    /** Three fresh buffers in zeroed storage, nothing to transmit. */
    constructor (bytes: nat)
      requires 0 < 8 * bytes <= 0xFFF8
      ensures Valid() && fresh(repr) && contents == [[], [], []] && current == TOTAL_TRACKS && !isKeyReleaseReport
      ensures forall i :: 0 <= i < TOTAL_TRACKS ==> tracks[i].Capacity() == 8 * bytes
    {
      hide BitBuffer.Valid;
      var t1 := NewTrack(bytes);
      var t2 := NewTrack(bytes);
      var t3 := NewTrack(bytes);
      tracks := [t1, t2, t3];
      repr := {t1, t2, t3, t1.data, t2.data, t3.data};
      contents := [[], [], []];
      current := TOTAL_TRACKS;
      isKeyReleaseReport := false;
    }

    /** The keys still to be reported. */
    ghost function Pending(): seq<Key>
      reads this
    {
      PendingKeys(contents, current)
    }

    /** Room on every track for the bits of a swipe. */
    ghost predicate HasRoom(trace: seq<Status>)
      requires ValidTrace(trace) && |tracks| == |contents| == TOTAL_TRACKS
      reads this
    {
      RoomBehind(contents, trace)
    }

    ghost predicate RoomBehind(held: seq<seq<bool>>, trace: seq<Status>)
      requires ValidTrace(trace) && |tracks| == |held| == TOTAL_TRACKS
    {
      forall i :: 0 <= i < TOTAL_TRACKS ==> |held[i]| + |TrackBits(trace, i, SwipeLength(trace))| <= tracks[i].Capacity()
    }

    method StoreOn(track: nat, bit: bool)
      requires Valid() && track < TOTAL_TRACKS && |contents[track]| < tracks[track].Capacity()
      modifies this`contents, repr
      ensures Valid() && contents == old(contents)[track := old(contents)[track] + [bit]]
    {
      assert tracks[track].elements == |contents[track]|;
      hide BitBuffer.Valid;
      tracks[track].StoreNextBit(bit);
      contents := contents[track := contents[track] + [bit]];
    }

    method TakeFrom(track: nat) returns (bit: bool)
      requires Valid() && track < TOTAL_TRACKS && contents[track] != []
      modifies this`contents, repr
      ensures Valid() && bit == old(contents)[track][0] && current == old(current)
      ensures contents == old(contents)[track := old(contents)[track][1..]]
    {
      assert tracks[track].elements == |contents[track]|;
      hide BitBuffer.Valid;
      bit := tracks[track].GetNextBit();
      contents := contents[track := contents[track][1..]];
    }

    /** One pass over the tracks: a rising clock edge stores the level of the data line. */
    method SampleTracks(now: Status, prev: Status)
      requires Valid() && now.Valid() && prev.Valid()
      requires forall i :: 0 <= i < TOTAL_TRACKS ==> |contents[i]| + |EdgeBit(now, prev, i)| <= tracks[i].Capacity()
      modifies this`contents, repr
      ensures Valid() && |contents| == TOTAL_TRACKS
      ensures forall i :: 0 <= i < TOTAL_TRACKS ==> contents[i] == old(contents)[i] + EdgeBit(now, prev, i)
    {
      assert |tracks| == TOTAL_TRACKS;
      hide BitBuffer.Valid, Valid;
      for track := 0 to TOTAL_TRACKS
        invariant Valid()
        invariant forall i :: 0 <= i < TOTAL_TRACKS ==>
          contents[i] == if i < track then old(contents)[i] + EdgeBit(now, prev, i) else old(contents)[i]
      {
        var dataPinLevel := now.data[track];
        var clockPinLevel := now.clock[track];
        var clockLevelChanged := now.clock[track] != prev.clock[track];
        if clockPinLevel && clockLevelChanged {
          StoreOn(track, dataPinLevel);
        }
      }
    }

    /** ReadMagstripeData: appends each track's bits, whatever the tracks held, and restarts the transmission. */
    method ReadMagstripeData(trace: seq<Status>)
      requires Valid() && ValidTrace(trace) && HasRoom(trace)
      modifies this, repr
      ensures Valid() && current == 0 && isKeyReleaseReport == old(isKeyReleaseReport)
      ensures contents == Appended(old(contents), SwipeBits(trace))
    {
      SampleSwipe(trace);
      current := 0;
    }

    /** The loop while the card is present. */
    method SampleSwipe(trace: seq<Status>)
      requires Valid() && ValidTrace(trace) && HasRoom(trace)
      modifies this`contents, repr
      ensures Valid() && contents == Appended(old(contents), SwipeBits(trace))
    {
      var prev := Status(false, [false, false, false], [false, false, false]);
      var n: nat := 0;
      SwipeEnds(trace);
      SampledNone(contents, trace);
      assert Follows(prev, trace, 0);
      hide SwipeLength, Valid, Sampled, Follows, RoomBehind;
      while trace[n].cardPresent
        invariant n <= SwipeLength(trace) && Valid()
        invariant Follows(prev, trace, n) && Sampled(old(contents), contents, trace, n)
        decreases SwipeLength(trace) - n
      {
        Sample(trace, n, prev, old(contents));
        prev := trace[n];
        n := n + 1;
        NextFollows(trace, n);
      }
      SampledAll(old(contents), contents, trace);
    }

    /** One sample of a swipe that fits. */
    method Sample(trace: seq<Status>, n: nat, prev: Status, ghost before: seq<seq<bool>>)
      requires Valid() && ValidTrace(trace) && n < SwipeLength(trace) && Follows(prev, trace, n)
      requires Sampled(before, contents, trace, n) && RoomBehind(before, trace)
      modifies this`contents, repr
      ensures Valid() && Sampled(before, contents, trace, n + 1)
    {
      forall i | 0 <= i < TOTAL_TRACKS ensures |contents[i]| + |EdgeBit(trace[n], prev, i)| <= tracks[i].Capacity() {
        RoomForSample(before, contents, trace, n, prev, i);
      }
      ghost var held := contents;
      hide Valid, Sampled, EdgeBit;
      SampleTracks(trace[n], prev);
      SampledMore(before, held, contents, trace, n, prev);
    }

    /** CALLBACK_HID_Device_CreateHIDReport. */
    method CreateReport() returns (key: Key)
      requires Valid()
      modifies this, repr
      ensures Valid() && isKeyReleaseReport == !old(isKeyReleaseReport)
      ensures key == Report(old(Pending()), isKeyReleaseReport)
      ensures Pending() == KeysAfter(old(Pending()), isKeyReleaseReport)
    {
      isKeyReleaseReport := !isKeyReleaseReport;
      if isKeyReleaseReport || current == TOTAL_TRACKS {
        key := KeyNone;
      } else if tracks[current].elements == 0 {
        assert contents[current] == [];
        key := KeyEnter;
        current := current + 1;
      } else {
        PendingTake(contents, current);
        var bit := TakeFrom(current);
        key := if bit then Key1 else Key0;
      }
    }

    /** The reports of n callback calls. */
    method Transmit(n: nat) returns (reports: seq<Key>)
      requires Valid()
      modifies this, repr
      ensures Valid() && reports == Reports(old(Pending()), !old(isKeyReleaseReport), n)
    {
      if n == 0 {
        return [];
      }
      ghost var keys, release := Pending(), !isKeyReleaseReport;
      hide *;
      var key := CreateReport();
      assert key == Report(keys, release) && Pending() == KeysAfter(keys, release) && isKeyReleaseReport == release;
      var later := Transmit(n - 1);
      assert later == Reports(KeysAfter(keys, release), !release, n - 1);
      ReportsStep(keys, release, n);
      reports := [key] + later;
    }

    /**
     * A swipe, whatever the tracks still held, then enough reports: the host sees each track's old and new bits and an
     * ENTER, in order, from the first track on.
     */
    method Swipe(trace: seq<Status>, n: nat) returns (reports: seq<Key>)
      requires Valid() && ValidTrace(trace) && HasRoom(trace)
      requires 2 * |PendingKeys(Appended(contents, SwipeBits(trace)), 0)| <= n
      modifies this, repr
      ensures Valid() && |reports| == n
      ensures NonEmpty(reports) == PendingKeys(Appended(old(contents), SwipeBits(trace)), 0)
      ensures forall i :: 0 <= i < n - 1 ==> reports[i] == KeyNone || reports[i + 1] == KeyNone
    {
      ghost var keys := PendingKeys(Appended(contents, SwipeBits(trace)), 0);
      ReadMagstripeData(trace);
      ghost var release := !isKeyReleaseReport;
      reports := Transmit(n);
      PendingHasNoNone(Appended(old(contents), SwipeBits(trace)), 0);
      ReportsDeliver(keys, release, n);
      forall i | 0 <= i < n - 1 ensures reports[i] == KeyNone || reports[i + 1] == KeyNone {
        KeysSeparated(keys, release, n, i);
      }
    }
  }

  /** The bits of a whole swipe, track by track. */
  ghost function SwipeBits(trace: seq<Status>): (tracks: seq<seq<bool>>)
    requires AllValid(trace)
    ensures |tracks| == TOTAL_TRACKS
  {
    var n := SwipeLength(trace);
    [TrackBits(trace, 0, n), TrackBits(trace, 1, n), TrackBits(trace, 2, n)]
  }

  /** Each track's bits with more behind them. */
  function Appended(tracks: seq<seq<bool>>, more: seq<seq<bool>>): seq<seq<bool>>
    requires |tracks| == |more|
  {
    seq(|tracks|, i requires 0 <= i < |tracks| => tracks[i] + more[i])
  }

  /** The first `n` samples of a swipe taken. */
  ghost predicate Sampled(before: seq<seq<bool>>, tracks: seq<seq<bool>>, trace: seq<Status>, n: nat)
    requires AllValid(trace)
  {
    && |before| == |tracks| == TOTAL_TRACKS && n <= |trace|
    && forall i :: 0 <= i < TOTAL_TRACKS ==> tracks[i] == before[i] + TrackBits(trace, i, n)
  }

  lemma SampledNone(tracks: seq<seq<bool>>, trace: seq<Status>)
    requires |tracks| == TOTAL_TRACKS && AllValid(trace)
    ensures Sampled(tracks, tracks, trace, 0)
  {
  }

  ghost predicate Follows(prev: Status, trace: seq<Status>, n: nat) {
    && n < |trace| && trace[n].Valid() && prev.Valid()
    && prev.clock == if n == 0 then [false, false, false] else trace[n - 1].clock
  }

  lemma NextFollows(trace: seq<Status>, n: nat)
    requires AllValid(trace) && 0 < n < |trace|
    ensures Follows(trace[n - 1], trace, n)
  {
  }

  lemma SampledMore(before: seq<seq<bool>>, tracks: seq<seq<bool>>, after: seq<seq<bool>>, trace: seq<Status>, n: nat, prev: Status)
    requires AllValid(trace) && Sampled(before, tracks, trace, n) && Follows(prev, trace, n) && |after| == TOTAL_TRACKS
    requires forall i :: 0 <= i < TOTAL_TRACKS ==> after[i] == tracks[i] + EdgeBit(trace[n], prev, i)
    ensures Sampled(before, after, trace, n + 1)
  {
    forall i | 0 <= i < TOTAL_TRACKS ensures after[i] == before[i] + TrackBits(trace, i, n + 1) {
      assert TrackBits(trace, i, n + 1) == TrackBits(trace, i, n) + EdgeBit(trace[n], prev, i);
    }
  }

  /** What a sample adds fits, if the whole swipe does. */
  lemma RoomForSample(before: seq<seq<bool>>, tracks: seq<seq<bool>>, trace: seq<Status>, n: nat, prev: Status, track: nat)
    requires AllValid(trace) && Sampled(before, tracks, trace, n) && Follows(prev, trace, n) && n < SwipeLength(trace) && track < TOTAL_TRACKS
    ensures |tracks[track]| + |EdgeBit(trace[n], prev, track)| <= |before[track]| + |TrackBits(trace, track, SwipeLength(trace))|
  {
    assert TrackBits(trace, track, n + 1) == TrackBits(trace, track, n) + EdgeBit(trace[n], prev, track);
    TrackBitsGrow(trace, track, n + 1, SwipeLength(trace));
  }

  lemma SampledAll(before: seq<seq<bool>>, tracks: seq<seq<bool>>, trace: seq<Status>)
    requires AllValid(trace) && Sampled(before, tracks, trace, SwipeLength(trace))
    ensures tracks == Appended(before, SwipeBits(trace))
  {
  }

  // ---------------------------------------------------------------- from the card to the host

  /** One bit of a card on each track: a stretch with the clocks low, a stretch with them high, the data lines as they are. */
  datatype Stroke = Stroke(data: seq<bool>, low: nat, high: nat)

  function Line(level: bool): seq<bool> {
    [level, level, level]
  }

  /** The samples of one bit; each stretch has at least one. */
  function Samples(s: Stroke): seq<Status> {
    seq(s.low + 1, _ => Status(true, Line(false), s.data)) + seq(s.high + 1, _ => Status(true, Line(true), s.data))
  }

  /** The samples while a card is drawn through. */
  function Drawn(card: seq<Stroke>): seq<Status> {
    if card == [] then [] else Drawn(card[..|card| - 1]) + Samples(card[|card| - 1])
  }

  ghost predicate IsCard(card: seq<Stroke>) {
    forall i :: 0 <= i < |card| ==> |card[i].data| == TOTAL_TRACKS
  }

  /** The bits a card carries on a track. */
  function Carried(card: seq<Stroke>, track: nat): seq<bool>
    requires IsCard(card) && track < TOTAL_TRACKS
  {
    seq(|card|, i requires 0 <= i < |card| => card[i].data[track])
  }

  lemma {:induction false} DrawnValid(card: seq<Stroke>)
    requires IsCard(card)
    ensures AllValid(Drawn(card)) && forall i :: 0 <= i < |Drawn(card)| ==> Drawn(card)[i].cardPresent
  {
    if card != [] {
      DrawnValid(card[..|card| - 1]);
    }
  }

  /** The bits depend on the samples so far only. */
  lemma {:induction false} BitsOfPrefix(trace: seq<Status>, more: seq<Status>, track: nat, n: nat)
    requires n <= |trace| && track < TOTAL_TRACKS && AllValid(trace) && AllValid(trace + more)
    ensures TrackBits(trace + more, track, n) == TrackBits(trace, track, n)
  {
    if 0 < n {
      BitsOfPrefix(trace, more, track, n - 1);
      assert (trace + more)[n - 1] == trace[n - 1] && (1 < n ==> (trace + more)[n - 2] == trace[n - 2]);
    }
  }

  /** A stretch of samples with the same clock has at most one edge, at its start. */
  lemma {:induction false} Stretch(trace: seq<Status>, track: nat, from: nat, n: nat)
    requires AllValid(trace) && track < TOTAL_TRACKS && from < n <= |trace|
    requires forall i :: from <= i < n ==> trace[i].clock[track] == trace[from].clock[track]
    ensures TrackBits(trace, track, n) == TrackBits(trace, track, from + 1)
    decreases n
  {
    if from + 1 < n {
      Stretch(trace, track, from, n - 1);
      assert !RisingEdge(trace, track, n - 1);
    }
  }

  /** Drawing a card puts each bit it carries on its track once, however long the clock is low or high. */
  lemma {:induction false} CardBits(card: seq<Stroke>, track: nat)
    requires IsCard(card) && track < TOTAL_TRACKS
    ensures AllValid(Drawn(card)) && TrackBits(Drawn(card), track, |Drawn(card)|) == Carried(card, track)
  {
    DrawnValid(card);
    if card != [] {
      var before, last := card[..|card| - 1], card[|card| - 1];
      CardBits(before, track);
      DrawnValid(before);
      hide *;
      DrawnGrows(card);
      LastBit(Drawn(before), last, track);
      CarriedGrows(card, track);
    }
  }

  lemma DrawnGrows(card: seq<Stroke>)
    requires IsCard(card) && card != []
    ensures Drawn(card) == Drawn(card[..|card| - 1]) + Samples(card[|card| - 1])
    ensures |card[|card| - 1].data| == TOTAL_TRACKS && IsCard(card[..|card| - 1])
  {
  }

  lemma CarriedGrows(card: seq<Stroke>, track: nat)
    requires IsCard(card) && card != [] && track < TOTAL_TRACKS
    ensures IsCard(card[..|card| - 1])
    ensures Carried(card, track) == Carried(card[..|card| - 1], track) + [card[|card| - 1].data[track]]
  {
  }

  lemma LastBit(before: seq<Status>, s: Stroke, track: nat)
    requires AllValid(before) && |s.data| == TOTAL_TRACKS && track < TOTAL_TRACKS
    ensures var trace := before + Samples(s);
      AllValid(trace) && TrackBits(trace, track, |trace|) == TrackBits(before, track, |before|) + [s.data[track]]
  {
    var trace, n := before + Samples(s), |before|;
    var edge := n + s.low + 1;
    SamplesAre(before, s);
    BitsOfPrefix(before, Samples(s), track, n);
    hide Samples, Drawn;
    Stretch(trace, track, n, edge);
    Stretch(trace, track, edge, |trace|);
    assert !RisingEdge(trace, track, n) && RisingEdge(trace, track, edge);
    assert trace[edge].data[track] == s.data[track];
  }

  lemma SamplesAre(before: seq<Status>, s: Stroke)
    requires AllValid(before) && |s.data| == TOTAL_TRACKS
    ensures var trace, n := before + Samples(s), |before|;
      && |trace| == n + s.low + 1 + s.high + 1 && AllValid(trace)
      && forall i :: n <= i < |trace| ==> trace[i] == Status(true, Line(n + s.low < i), s.data)
  {
  }

  /** So a card drawn and then gone gives each track the bits it carries. */
  lemma CardRead(card: seq<Stroke>, gone: Status)
    requires IsCard(card) && gone.Valid() && !gone.cardPresent
    ensures ValidTrace(Drawn(card) + [gone]) && SwipeBits(Drawn(card) + [gone]) == [Carried(card, 0), Carried(card, 1), Carried(card, 2)]
  {
    var drawn := Drawn(card);
    DrawnValid(card);
    assert forall i :: 0 <= i < |drawn| ==> (drawn + [gone])[i] == drawn[i];
    assert ValidTrace(drawn + [gone]);
    SwipeEnds(drawn + [gone]);
    assert SwipeLength(drawn + [gone]) == |drawn|;
    hide SwipeLength, Drawn, Carried;
    BitsOfPrefix(drawn, [gone], 0, |drawn|);
    BitsOfPrefix(drawn, [gone], 1, |drawn|);
    BitsOfPrefix(drawn, [gone], 2, |drawn|);
    CardBits(card, 0);
    CardBits(card, 1);
    CardBits(card, 2);
  }

  /** The tracks a host makes of the keys: ENTER ends one. */
  function Typed(keys: seq<Key>): seq<seq<bool>> {
    if keys == [] then []
    else
      var later := Typed(keys[1..]);
      if keys[0] == KeyEnter then [[]] + later
      else if later == [] then [[keys[0] == Key1]]
      else [[keys[0] == Key1] + later[0]] + later[1..]
  }

  /** The host gets the tracks back. */
  lemma {:induction false} TypedBack(tracks: seq<seq<bool>>, current: nat)
    requires current <= |tracks|
    ensures Typed(PendingKeys(tracks, current)) == tracks[current..]
    decreases |tracks| - current
  {
    if current < |tracks| {
      TypedBack(tracks, current + 1);
      PendingOpens(tracks, current);
      TypedTrack(tracks[current], PendingKeys(tracks, current + 1));
      assert tracks[current..] == [tracks[current]] + tracks[current + 1..];
    }
    hide Typed;
  }

  lemma {:induction false} TypedTrack(bits: seq<bool>, later: seq<Key>)
    ensures Typed(BitKeys(bits) + ([KeyEnter] + later)) == [bits] + Typed(later)
  {
    var keys := BitKeys(bits) + ([KeyEnter] + later);
    if bits == [] {
      assert keys == [KeyEnter] + later && keys[1..] == later;
    } else {
      TypedTrack(bits[1..], later);
      BitKeysTake(bits, [KeyEnter] + later);
      assert keys[1..] == BitKeys(bits[1..]) + ([KeyEnter] + later);
      assert [bits[0]] + bits[1..] == bits;
      assert ([bits[1..]] + Typed(later))[1..] == Typed(later);
    }
  }
}
