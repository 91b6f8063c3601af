/**
 * SoftUART: a transmitter that shifts one bit out per timer compare, and a receiver that times its samples
 * from the falling edge of the start bit, on an 8-bit timer.
 */
module SoftUart {
  import opened Arith
  import opened Bytes

  // ---------------------------------------------------------------- what is on the line

  /** The level of bit period k of a frame: start, eight data bits from the lowest, stop. */
  function Level(c: byte, k: nat): bool {
    if k == 0 then false else if k <= 8 then c & Mask(k - 1) != 0 else true
  }

  function FrameLevels(c: byte): seq<bool> {
    seq(10, k requires 0 <= k < 10 => Level(c, k))
  }

  /** A byte and the number of idle bit periods, or ticks, that follow its frame. */
  datatype Frame = Frame(data: byte, gap: nat)

  /** Bit by bit: frames and the idle periods after them. */
  function Levels(frames: seq<Frame>): seq<bool> {
    if frames == [] then []
    else Levels(frames[..|frames| - 1]) + FrameLevels(frames[|frames| - 1].data) + seq(frames[|frames| - 1].gap, _ => true)
  }

  /** Tick by tick: a frame of bit period T and `gap` idle ticks. */
  function FrameWave(f: Frame, T: nat): seq<bool>
    requires 0 < T
  {
    seq(10 * T + f.gap, u requires 0 <= u < 10 * T + f.gap => if u < 10 * T then Level(f.data, u / T) else true)
  }

  function Wave(frames: seq<Frame>, T: nat): seq<bool>
    requires 0 < T
  {
    if frames == [] then [] else Wave(frames[..|frames| - 1], T) + FrameWave(frames[|frames| - 1], T)
  }

  function Data(frames: seq<Frame>): seq<byte> {
    seq(|frames|, i requires 0 <= i < |frames| => frames[i].data)
  }

  // ---------------------------------------------------------------- transmitter

  class Transmitter {
    var stxCount: nat
    var stxData: byte
    var line: bool

    constructor ()
      ensures stxCount == 0 && line
    {
      stxCount, stxData, line := 0, 0, true;
    }

    /** SoftUART_TxByte, once the previous byte has gone. */
    method TxByte(c: byte)
      requires stxCount == 0
      modifies this
      ensures stxCount == 10 && stxData == !c && line == old(line)
    {
      stxData := !c;
      stxCount := 10;
    }

    /** TIMER2_COMPB: the level set here is the one the pin takes at the next compare. */
    method CompareB()
      modifies this
      ensures old(stxCount) == 0 ==> stxCount == 0 && line == old(line) && stxData == old(stxData)
      ensures old(stxCount) != 0 ==> stxCount == old(stxCount) - 1
      ensures old(stxCount) == 10 ==> !line && stxData == old(stxData)
      ensures old(stxCount) != 0 && old(stxCount) != 10 ==> line == (old(stxData) & 1 == 0) && stxData == old(stxData) >> 1
    {
      if stxCount != 0 {
        stxCount := stxCount - 1;
        if stxCount != 9 {
          line := stxData & 1 == 0;
          stxData := stxData >> 1;
        } else {
          line := false;
        }
      }
    }

    /** One frame: TxByte and ten compares put start, data from the lowest bit and stop on the line. */
    method SendFrame(c: byte) returns (levels: seq<bool>)
      requires stxCount == 0
      modifies this
      ensures levels == FrameLevels(c) && stxCount == 0 && line
    {
      FirstLevel(c);
      TxByte(c);
      SendStart(c);
      levels := [line];
      for k := 1 to 10
        invariant stxCount == 10 - k && stxData == Shifted(c, k - 1)
        invariant levels == FrameLevels(c)[..k] && line == Level(c, k - 1)
      {
        OneMoreLevel(c, k);
        hide *;
        SendBit(c, k);
        levels := levels + [line];
      }
    }

    /** The compare of the start bit. */
    method SendStart(c: byte)
      requires stxCount == 10 && stxData == !c
      modifies this
      ensures stxCount == 9 && stxData == Shifted(c, 0) && line == Level(c, 0)
    {
      CompareB();
    }

    /** The compare of data or stop bit k. */
    method SendBit(c: byte, k: nat)
      requires 1 <= k <= 9 && stxCount == 10 - k && stxData == Shifted(c, k - 1)
      modifies this
      ensures stxCount == 9 - k && stxData == Shifted(c, k) && line == Level(c, k)
    {
      DataLevel(c, k);
      hide *;
      CompareB();
    }

    /** A sequence of bytes with idle periods in between, one level per compare. */
    method SendAll(frames: seq<Frame>) returns (levels: seq<bool>)
      requires stxCount == 0 && line
      modifies this
      ensures levels == Levels(frames) && stxCount == 0 && line
    {
      levels := [];
      for i := 0 to |frames|
        invariant levels == Levels(frames[..i]) && stxCount == 0 && line
      {
        assert frames[..i + 1][..i] == frames[..i];
        var frame := SendFrame(frames[i].data);
        var idle := [];
        for j := 0 to frames[i].gap
          invariant idle == seq(j, _ => true) && stxCount == 0 && line
        {
          CompareB();
          idle := idle + [line];
        }
        levels := levels + frame + idle;
      }
      assert frames[..|frames|] == frames;
    }
  }

  /** The inverted byte after k shifts. */
  function Shifted(c: byte, k: nat): byte {
    if k == 0 then !c else Shifted(c, k - 1) >> 1
  }

  lemma FirstLevel(c: byte)
    ensures FrameLevels(c)[..1] == [Level(c, 0)] && FrameLevels(c)[..10] == FrameLevels(c) && Level(c, 9)
  {
  }

  lemma OneMoreLevel(c: byte, k: nat)
    requires k < 10
    ensures FrameLevels(c)[..k + 1] == FrameLevels(c)[..k] + [Level(c, k)]
  {
  }

  /** What the compare for bit period k puts on the line. */
  lemma DataLevel(c: byte, k: nat)
    requires 1 <= k <= 9
    ensures (Shifted(c, k - 1) & 1 == 0) == Level(c, k) && Shifted(c, k) == Shifted(c, k - 1) >> 1
    ensures Level(c, 9)
  {
    ShiftedBit(c, k - 1, 0);
  }

  /** Is bit j of a byte set? */
  predicate HasBit(d: byte, j: nat)
    requires j < 8
  {
    d & Mask(j) != 0
  }

  lemma ShiftBit(d: byte, j: nat)
    requires j < 8
    ensures HasBit(d >> 1, j) <==> j < 7 && HasBit(d, j + 1)
  {
  }

  lemma InvertBit(c: byte, j: nat)
    requires j < 8
    ensures HasBit(!c, j) <==> !HasBit(c, j)
  {
  }

  lemma ShiftedStep(c: byte, k: nat, j: nat)
    requires j < 8
    ensures k == 0 ==> (HasBit(Shifted(c, k), j) <==> !HasBit(c, j))
    ensures 0 < k ==> (HasBit(Shifted(c, k), j) <==> j < 7 && HasBit(Shifted(c, k - 1), j + 1))
  {
    hide HasBit;
    if k == 0 {
      InvertBit(c, j);
    } else {
      ShiftBit(Shifted(c, k - 1), j);
    }
  }

  /** Bit j after k shifts is the inverse of bit k + j, and zero past the top. */
  lemma {:induction false} ShiftedBit(c: byte, k: nat, j: nat)
    requires j < 8
    ensures HasBit(Shifted(c, k), j) <==> k + j < 8 && !HasBit(c, k + j)
    decreases k
  {
    hide *;
    ShiftedStep(c, k, j);
    if 0 < k && j < 7 {
      ShiftedBit(c, k - 1, j + 1);
    }
  }

  // ---------------------------------------------------------------- receiver

  const TIMER := 256

  /** The receiver's state: with its start interrupt armed, or sampling a byte. */
  datatype Rx = Rx(armed: bool, mask: byte, tmp: byte, ocr: nat, done: bool, data: byte, received: seq<byte>)

  class Receiver {
    const bitTicks: nat
    var startArmed: bool   // EIMSK INT0
    var sampling: bool     // TIMSK2 OCIE2A
    var srxMask: byte
    var srxTmp: byte
    var ocr2a: nat
    var srxDone: bool
    var srxData: byte
    ghost var received: seq<byte>

    ghost predicate Valid()
      reads this
    {
      startArmed == !sampling && ocr2a < TIMER && 0 < bitTicks && FirstSample(bitTicks) < TIMER
    }

    constructor (bitTicks: nat)
      requires 0 < bitTicks && FirstSample(bitTicks) < TIMER
      ensures Valid() && this.bitTicks == bitTicks && startArmed && received == []
    {
      this.bitTicks := bitTicks;
      startArmed, sampling, srxMask, srxTmp, ocr2a, srxDone, srxData := true, false, 0, 0, 0, false, 0;
      received := [];
    }

    ghost function Snapshot(): Rx
      reads this
    {
      Rx(startArmed, srxMask, srxTmp, ocr2a, srxDone, srxData, received)
    }

    /** INT0: a falling edge. */
    method StartEdge(tcnt: nat, line: bool)
      requires Valid() && startArmed && tcnt < TIMER
      modifies this
      ensures Valid() && Snapshot() == EdgeStep(old(Snapshot()), bitTicks, tcnt, line)
    {
      ocr2a := Later(tcnt, bitTicks * 3 / 2);
      srxTmp := 0;
      srxMask := 1;
      if !line {
        sampling := true;
        startArmed := false;
      }
    }

    /** TIMER2_COMPA: one sample, or the end of the byte. */
    method CompareA(line: bool)
      requires Valid() && sampling
      modifies this
      ensures Valid() && Snapshot() == SampleStep(old(Snapshot()), bitTicks, line)
    {
      hide FirstSample, NextMask, Later;
      if srxMask != 0 {
        if line {
          srxTmp := srxTmp | srxMask;
        }
        srxMask := NextMask(srxMask);
        ocr2a := Later(ocr2a, bitTicks);
      } else {
        srxDone := true;
        srxData := srxTmp;
        received := received + [srxTmp];
        sampling := false;
        startArmed := true;
      }
    }

    /** One timer tick: the line level, the interrupt that is due, if any, and the timer. */
    method Tick(wave: seq<bool>, t: nat, tcnt: nat) returns (next: nat)
      requires Valid() && t < |wave| && tcnt == t % TIMER
      modifies this
      ensures Valid() && next == (t + 1) % TIMER && Snapshot() == TickStep(old(Snapshot()), bitTicks, wave, t)
    {
      next := if tcnt == TIMER - 1 then 0 else tcnt + 1;
      hide EdgeStep, SampleStep;
      if startArmed {
        if Falls(wave, t) {
          StartEdge(tcnt, wave[t]);
        }
      } else if tcnt == ocr2a {
        CompareA(wave[t]);
      }
    }

    /** SoftUART_IsReceived. */
    method IsReceived() returns (received: bool)
      ensures received == srxDone
    {
      return srxDone;
    }

    /** SoftUART_RxByte, once there is a byte. */
    method RxByte() returns (data: byte)
      requires Valid() && srxDone
      modifies this`srxDone
      ensures Valid() && !srxDone && data == srxData
    {
      srxDone := false;
      return srxData;
    }

    /** One look of the program: the byte received since the last one, if any. */
    method Look(read: seq<byte>) returns (read': seq<byte>)
      requires Valid()
      modifies this`srxDone
      ensures Valid() && Listener(Snapshot(), read') == Looked(Listener(old(Snapshot()), read))
    {
      read' := read;
      var received := IsReceived();
      if received {
        var data := RxByte();
        read' := read + [data];
      }
    }

    /**
     * The interrupts over a stretch of line levels, one per timer tick, the line having been high before, and a program
     * that looks for a byte after the ticks of its choice.
     */
    method Listen(wave: seq<bool>, looks: seq<bool>) returns (read: seq<byte>)
      requires Valid() && |looks| == |wave|
      modifies this
      ensures Valid() && Listener(Snapshot(), read) == Heard(old(Snapshot()), bitTicks, wave, looks, |wave|)
    {
      var tcnt := 0;
      read := [];
      for t := 0 to |wave|
        invariant Valid() && tcnt == t % TIMER
        invariant Listener(Snapshot(), read) == Heard(old(Snapshot()), bitTicks, wave, looks, t)
      {
        hide TickStep, Looked;
        tcnt := Tick(wave, t, tcnt);
        if looks[t] {
          read := Look(read);
        }
      }
    }
  }

  /** The receiver and what the program has read from it. */
  datatype Listener = Listener(rx: Rx, read: seq<byte>)

  function Looked(s: Listener): Listener {
    if s.rx.done then Listener(s.rx.(done := false), s.read + [s.rx.data]) else s
  }

  /** After the first n ticks and the looks behind them. */
  function Heard(rx: Rx, bitTicks: nat, wave: seq<bool>, looks: seq<bool>, n: nat): Listener
    requires n <= |wave| == |looks|
  {
    if n == 0 then Listener(rx, [])
    else
      var before := Heard(rx, bitTicks, wave, looks, n - 1);
      var ticked := before.(rx := TickStep(before.rx, bitTicks, wave, n - 1));
      if looks[n - 1] then Looked(ticked) else ticked
  }

  /** Ticks from the start edge to the middle of the first data bit. */
  function FirstSample(bitTicks: nat): nat {
    bitTicks * 3 / 2
  }

  function EdgeStep(rx: Rx, bitTicks: nat, tcnt: nat, line: bool): Rx {
    rx.(ocr := Later(tcnt, FirstSample(bitTicks)), tmp := 0, mask := 1, armed := line)
  }

  function Collect(tmp: byte, mask: byte, line: bool): byte {
    if line then tmp | mask else tmp
  }

  function NextMask(mask: byte): byte {
    mask << 1
  }

  /** A timer value some ticks later. */
  function Later(ocr: nat, ticks: nat): (r: nat)
    ensures r < TIMER
  {
    (ocr + ticks) % TIMER
  }

  function SampleStep(rx: Rx, bitTicks: nat, line: bool): Rx {
    if rx.mask != 0 then
      Rx(rx.armed, NextMask(rx.mask), Collect(rx.tmp, rx.mask, line), Later(rx.ocr, bitTicks), rx.done, rx.data, rx.received)
    else
      Rx(true, rx.mask, rx.tmp, rx.ocr, true, rx.tmp, rx.received + [rx.tmp])
  }

  /** Is there a falling edge at tick t? The line is high before the first tick. */
  predicate Falls(wave: seq<bool>, t: nat)
    requires t < |wave|
  {
    (t == 0 || wave[t - 1]) && !wave[t]
  }

  function TickStep(rx: Rx, bitTicks: nat, wave: seq<bool>, t: nat): Rx
    requires t < |wave|
  {
    if rx.armed then (if Falls(wave, t) then EdgeStep(rx, bitTicks, t % TIMER, wave[t]) else rx)
    else if t % TIMER == rx.ocr then SampleStep(rx, bitTicks, wave[t])
    else rx
  }

  /** The receiver after the first n ticks. */
  function After(rx: Rx, bitTicks: nat, wave: seq<bool>, n: nat): Rx
    requires n <= |wave|
  {
    if n == 0 then rx else TickStep(After(rx, bitTicks, wave, n - 1), bitTicks, wave, n - 1)
  }

  /** A line that is high again when the start interrupt looks at it leaves the receiver armed, and the next start unharmed. */
  lemma GlitchIgnored(rx: Rx, b: nat, tcnt: nat, next: nat)
    ensures var glitch := EdgeStep(rx, b, tcnt, true);
      && glitch.armed && glitch.received == rx.received && glitch.done == rx.done && glitch.data == rx.data
      && EdgeStep(glitch, b, next, false) == EdgeStep(rx, b, next, false) && !EdgeStep(rx, b, next, false).armed
  {
    hide Later;
  }

  /** An armed receiver ignores a stretch without falling edges. */
  lemma {:induction false} StaysArmed(rx: Rx, b: nat, wave: seq<bool>, from: nat, until: nat)
    requires from <= until <= |wave| && After(rx, b, wave, from).armed
    requires forall t :: from <= t < until ==> !Falls(wave, t)
    ensures After(rx, b, wave, until) == After(rx, b, wave, from)
    decreases until - from
  {
    if from < until {
      StaysArmed(rx, b, wave, from, until - 1);
    }
  }

  /** A sampling receiver waits for its compare value, which must be less than a timer turn ahead. */
  lemma {:induction false} WaitsForCompare(rx: Rx, b: nat, wave: seq<bool>, from: nat, until: nat, due: nat)
    requires from <= until <= |wave| && !After(rx, b, wave, from).armed
    requires After(rx, b, wave, from).ocr == due % TIMER && until <= due < from + TIMER
    ensures After(rx, b, wave, until) == After(rx, b, wave, from)
    decreases until - from
  {
    if from < until {
      WaitsForCompare(rx, b, wave, from, until - 1, due);
      hide EdgeStep, SampleStep;
      CompareDiffers(until - 1, due);
    }
  }

  lemma CompareDiffers(t: nat, due: nat)
    requires t < due < t + TIMER
    ensures t % TIMER != due % TIMER
  {
  }

  /**
   * The sampling bound: sample point k, at 3b/2 + k b ticks from the start edge, falls into bit k of a sender
   * whose bits last T ticks.
   */
  ghost predicate InStep(b: nat, T: nat) {
    && 0 < b && FirstSample(b) < TIMER
    && forall k :: 0 <= k < 8 ==> (k + 1) * T <= SamplePoint(b, k) < (k + 2) * T
  }

  function SamplePoint(b: nat, k: nat): nat {
    FirstSample(b) + k * b
  }

  /** The receiver is armed again before the next start edge. */
  ghost predicate RearmsInTime(b: nat, T: nat, f: Frame) {
    SamplePoint(b, 8) < 10 * T + f.gap
  }

  /** The mask before sample k. */
  function SampleMask(k: nat): byte
    requires k <= 8
  {
    if k == 8 then 0 else Mask(k)
  }

  /** The lower k bits of c. */
  function Low(c: byte, k: nat): byte
    requires k <= 8
  {
    c & (SampleMask(k) - 1)
  }

  /** Sampling bit k extends the collected bits by one. */
  lemma CollectBit(c: byte, k: nat)
    requires k < 8
    ensures Collect(Low(c, k), SampleMask(k), c & Mask(k) != 0) == Low(c, k + 1)
    ensures NextMask(SampleMask(k)) == SampleMask(k + 1) && SampleMask(k) != 0
  {
    NextSample(k);
    CollectMask(c, SampleMask(k));
  }

  lemma NextSample(k: nat)
    requires k < 8
    ensures NextMask(SampleMask(k)) == SampleMask(k + 1) && SampleMask(k) == Mask(k) != 0
  {
  }

  lemma CollectMask(c: byte, m: byte)
    requires m & (m - 1) == 0 && m != 0
    ensures Collect(c & (m - 1), m, c & m != 0) == c & ((m << 1) - 1)
  {
  }

  lemma NoBitsYet(c: byte)
    ensures Low(c, 0) == 0 && SampleMask(0) == 1
  {
  }

  lemma AllBits(c: byte)
    ensures Low(c, 8) == c && SampleMask(8) == 0
  {
    assert c & 0xFF == c;
    assert (0 as byte) - 1 == 0xFF;
  }

  lemma LaterMod(now: nat, ticks: nat)
    ensures Later(now % TIMER, ticks) == (now + ticks) % TIMER
  {
  }

  /** Waiting for sample k of a frame that started at tick p, the lower bits of c collected. */
  ghost predicate Collecting(now: Rx, b: nat, p: nat, k: nat, c: byte, got: seq<byte>) {
    && k <= 8 && !now.armed && now.mask == SampleMask(k) && now.tmp == Low(c, k)
    && now.ocr == (p + SamplePoint(b, k)) % TIMER && now.received == got
  }

  /** The ticks processed when the receiver starts waiting for sample k. */
  function Mark(b: nat, p: nat, k: nat): nat {
    if k == 0 then p + 1 else p + SamplePoint(b, k - 1) + 1
  }

  lemma SampleAfter(b: nat, k: nat)
    ensures SamplePoint(b, k + 1) == SamplePoint(b, k) + b && SamplePoint(b, 0) == FirstSample(b)
  {
    MulStep(k, b);
  }

  lemma StartDetected(rx: Rx, b: nat, wave: seq<bool>, p: nat, c: byte)
    requires p < |wave| && After(rx, b, wave, p).armed && Falls(wave, p) && 0 < b && FirstSample(b) < TIMER
    ensures Collecting(After(rx, b, wave, p + 1), b, p, 0, c, After(rx, b, wave, p).received)
  {
    NoBitsYet(c);
    SampleAfter(b, 0);
    LaterMod(p, FirstSample(b));
    hide Mask, SampleMask, SamplePoint, After, Low, Later, FirstSample, Falls;
    AfterStep(rx, b, wave, p);
  }

  lemma OneSample(rx: Rx, b: nat, wave: seq<bool>, p: nat, k: nat, c: byte, got: seq<byte>)
    requires k < 8 && 0 < b && FirstSample(b) < TIMER && p + SamplePoint(b, k) < |wave|
    requires Collecting(After(rx, b, wave, Mark(b, p, k)), b, p, k, c, got)
    requires wave[p + SamplePoint(b, k)] == (c & Mask(k) != 0)
    ensures Collecting(After(rx, b, wave, Mark(b, p, k + 1)), b, p, k + 1, c, got)
  {
    var from, due := Mark(b, p, k), p + SamplePoint(b, k);
    MarkBefore(b, p, k);
    var now := After(rx, b, wave, from);
    SampleTaken(now, b, p, k, c, got, wave[due]);
    assert now.ocr == due % TIMER && !now.armed;
    hide After, SamplePoint, Mask, Collecting, SampleStep, Falls, Mark;
    WaitsForCompare(rx, b, wave, from, due, due);
    AfterStep(rx, b, wave, due);
  }

  /** The next compare is less than a turn of the timer ahead. */
  lemma MarkBefore(b: nat, p: nat, k: nat)
    requires 0 < b && FirstSample(b) < TIMER
    ensures Mark(b, p, k) <= p + SamplePoint(b, k) < Mark(b, p, k) + TIMER && Mark(b, p, k + 1) == p + SamplePoint(b, k) + 1
  {
    if k == 0 {
      SampleAfter(b, 0);
    } else {
      SampleAfter(b, k - 1);
    }
  }

  /** A sample with the right level collects one more bit. */
  lemma SampleTaken(now: Rx, b: nat, p: nat, k: nat, c: byte, got: seq<byte>, line: bool)
    requires k < 8 && Collecting(now, b, p, k, c, got) && line == (c & Mask(k) != 0)
    ensures Collecting(SampleStep(now, b, line), b, p, k + 1, c, got)
  {
    SampleAfter(b, k);
    CollectBit(c, k);
    LaterMod(p + SamplePoint(b, k), b);
    hide Mask, SampleMask, SamplePoint, Collect, NextMask, Low, Later;
  }

  lemma AfterStep(rx: Rx, b: nat, wave: seq<bool>, n: nat)
    requires n < |wave|
    ensures After(rx, b, wave, n + 1) == TickStep(After(rx, b, wave, n), b, wave, n)
  {
  }

  lemma {:induction false} AllSamples(rx: Rx, b: nat, wave: seq<bool>, p: nat, k: nat, c: byte, got: seq<byte>)
    requires k <= 8 && 0 < b && FirstSample(b) < TIMER && p + SamplePoint(b, 8) < |wave|
    requires Collecting(After(rx, b, wave, p + 1), b, p, 0, c, got)
    requires forall j :: 0 <= j < 8 ==> SamplePoint(b, j) < SamplePoint(b, 8) && wave[p + SamplePoint(b, j)] == (c & Mask(j) != 0)
    ensures Mark(b, p, k) <= |wave| && Collecting(After(rx, b, wave, Mark(b, p, k)), b, p, k, c, got)
  {
    if 0 < k {
      AllSamples(rx, b, wave, p, k - 1, c, got);
      OneSample(rx, b, wave, p, k - 1, c, got);
    }
  }

  /** The ninth compare delivers the byte and arms the start interrupt again. */
  lemma ByteDone(rx: Rx, b: nat, wave: seq<bool>, p: nat, c: byte, got: seq<byte>)
    requires 0 < b && FirstSample(b) < TIMER && p + SamplePoint(b, 8) < |wave|
    requires Collecting(After(rx, b, wave, Mark(b, p, 8)), b, p, 8, c, got)
    ensures var now := After(rx, b, wave, p + SamplePoint(b, 8) + 1);
      now.armed && now.received == got + [c] && now.done && now.data == c
  {
    var due := p + SamplePoint(b, 8);
    MarkBefore(b, p, 8);
    AllBits(c);
    hide Mask, SampleMask, SamplePoint, After, Collect, NextMask, Low, Later, Falls, Mark;
    WaitsForCompare(rx, b, wave, Mark(b, p, 8), due, due);
    AfterStep(rx, b, wave, due);
  }

  // ---------------------------------------------------------------- a frame, and a stream of frames

  lemma FrameAt(f: Frame, T: nat, k: nat, u: nat)
    requires 0 < T && u < 10 * T + f.gap
    ensures k < 10 && k * T <= u < (k + 1) * T ==> FrameWave(f, T)[u] == Level(f.data, k)
    ensures 9 * T <= u ==> FrameWave(f, T)[u]
  {
    if k < 10 && k * T <= u < (k + 1) * T {
      MulStep(k, T);
      MulMono(k + 1, 10, T);
      DivUnique(u, T, k, u - k * T);
    }
    if 9 * T <= u < 10 * T {
      DivUnique(u, T, 9, u - 9 * T);
    }
  }

  /** One frame, from an armed receiver at its first tick to an armed receiver at its end. */
  lemma FrameReceived(rx: Rx, b: nat, T: nat, wave: seq<bool>, p: nat, f: Frame)
    requires 0 < T && InStep(b, T) && RearmsInTime(b, T, f)
    requires |wave| == p + 10 * T + f.gap && wave[p..] == FrameWave(f, T)
    requires After(rx, b, wave, p).armed && (p == 0 || wave[p - 1])
    ensures After(rx, b, wave, |wave|).armed
    ensures After(rx, b, wave, |wave|).received == After(rx, b, wave, p).received + [f.data]
    ensures After(rx, b, wave, |wave|).done && After(rx, b, wave, |wave|).data == f.data
  {
    hide After, SamplePoint, FrameWave, Falls, Mask;
    StartsLow(T, wave, p, f);
    SamplesRight(b, T, wave, p, f);
    NoEdgeAfter(b, T, wave, p, f);
    ReceiveByte(rx, b, wave, p, f.data);
  }

  /** A start edge, eight right samples and no edge after them deliver the byte. */
  lemma ReceiveByte(rx: Rx, b: nat, wave: seq<bool>, p: nat, c: byte)
    requires 0 < b && FirstSample(b) < TIMER && p + SamplePoint(b, 8) < |wave|
    requires After(rx, b, wave, p).armed && Falls(wave, p)
    requires forall j :: 0 <= j < 8 ==> SamplePoint(b, j) < SamplePoint(b, 8) && wave[p + SamplePoint(b, j)] == (c & Mask(j) != 0)
    requires forall t :: p + SamplePoint(b, 8) + 1 <= t < |wave| ==> !Falls(wave, t)
    ensures After(rx, b, wave, |wave|).armed
    ensures After(rx, b, wave, |wave|).received == After(rx, b, wave, p).received + [c]
    ensures After(rx, b, wave, |wave|).done && After(rx, b, wave, |wave|).data == c
  {
    hide After, SamplePoint, Falls, Mask, FirstSample, Collecting;
    var got := After(rx, b, wave, p).received;
    StartDetected(rx, b, wave, p, c);
    AllSamples(rx, b, wave, p, 8, c, got);
    ByteDone(rx, b, wave, p, c, got);
    StaysArmed(rx, b, wave, p + SamplePoint(b, 8) + 1, |wave|);
  }

  lemma StartsLow(T: nat, wave: seq<bool>, p: nat, f: Frame)
    requires 0 < T && |wave| == p + 10 * T + f.gap && wave[p..] == FrameWave(f, T) && (p == 0 || wave[p - 1])
    ensures Falls(wave, p)
  {
    FrameAt(f, T, 0, 0);
    assert wave[p] == wave[p..][0];
  }

  /** Sample j reads bit j of the byte. */
  lemma SampleRight(b: nat, T: nat, wave: seq<bool>, p: nat, f: Frame, j: nat)
    requires 0 < T && InStep(b, T) && RearmsInTime(b, T, f) && j < 8
    requires |wave| == p + 10 * T + f.gap && wave[p..] == FrameWave(f, T)
    ensures SamplePoint(b, j) < SamplePoint(b, 8) < 10 * T + f.gap
    ensures wave[p + SamplePoint(b, j)] == (f.data & Mask(j) != 0)
  {
    MulMono(j + 1, 8, b);
    MulStep(j, b);
    hide Mask;
    FrameAt(f, T, j + 1, SamplePoint(b, j));
    assert wave[p + SamplePoint(b, j)] == wave[p..][SamplePoint(b, j)];
  }

  lemma SamplesRight(b: nat, T: nat, wave: seq<bool>, p: nat, f: Frame)
    requires 0 < T && InStep(b, T) && RearmsInTime(b, T, f)
    requires |wave| == p + 10 * T + f.gap && wave[p..] == FrameWave(f, T)
    ensures p + SamplePoint(b, 8) < |wave|
    ensures forall j :: 0 <= j < 8 ==> SamplePoint(b, j) < SamplePoint(b, 8) && wave[p + SamplePoint(b, j)] == (f.data & Mask(j) != 0)
  {
    hide InStep, SamplePoint, FrameWave, Mask;
    forall j | 0 <= j < 8
      ensures SamplePoint(b, j) < SamplePoint(b, 8) && p + SamplePoint(b, j) < |wave|
      ensures wave[p + SamplePoint(b, j)] == (f.data & Mask(j) != 0)
    {
      SampleRight(b, T, wave, p, f, j);
    }
  }

  /** After the last sample the line can only rise. */
  lemma NoEdgeAfter(b: nat, T: nat, wave: seq<bool>, p: nat, f: Frame)
    requires 0 < T && InStep(b, T) && |wave| == p + 10 * T + f.gap && wave[p..] == FrameWave(f, T)
    ensures forall t :: p + SamplePoint(b, 8) + 1 <= t < |wave| ==> !Falls(wave, t)
  {
    SampleAfter(b, 7);
    assert 8 * T <= SamplePoint(b, 7);
    forall t | p + SamplePoint(b, 8) + 1 <= t < |wave| ensures !Falls(wave, t) {
      var u := t - p;
      FrameAt(f, T, 8, u);
      FrameAt(f, T, 8, u - 1);
      assert wave[t] == wave[p..][u] && wave[t - 1] == wave[p..][u - 1];
    }
  }

  lemma {:induction false} AfterPrefix(rx: Rx, b: nat, wave: seq<bool>, more: seq<bool>, n: nat)
    requires n <= |wave|
    ensures After(rx, b, wave + more, n) == After(rx, b, wave, n)
  {
    if 0 < n {
      AfterPrefix(rx, b, wave, more, n - 1);
      assert Falls(wave + more, n - 1) == Falls(wave, n - 1);
    }
  }

  lemma WaveEndsHigh(frames: seq<Frame>, T: nat)
    requires 0 < T && frames != []
    ensures Wave(frames, T) != [] && Wave(frames, T)[|Wave(frames, T)| - 1]
  {
    var f := frames[|frames| - 1];
    FrameAt(f, T, 9, 10 * T + f.gap - 1);
  }

  /** Any stream of frames, with any gaps that leave time to re-arm, is received byte for byte. */
  lemma {:induction false} StreamReceived(rx: Rx, b: nat, T: nat, frames: seq<Frame>)
    requires 0 < T && InStep(b, T) && rx.armed
    requires forall i :: 0 <= i < |frames| ==> RearmsInTime(b, T, frames[i])
    ensures After(rx, b, Wave(frames, T), |Wave(frames, T)|).armed
    ensures After(rx, b, Wave(frames, T), |Wave(frames, T)|).received == rx.received + Data(frames)
  {
    if frames != [] {
      var earlier, f := frames[..|frames| - 1], frames[|frames| - 1];
      StreamReceived(rx, b, T, earlier);
      if earlier != [] {
        WaveEndsHigh(earlier, T);
      }
      assert Wave(frames, T) == Wave(earlier, T) + FrameWave(f, T);
      DataAppended(frames);
      hide *;
      FrameAppended(rx, b, T, Wave(earlier, T), f);
    }
  }

  lemma DataAppended(frames: seq<Frame>)
    requires frames != []
    ensures Data(frames) == Data(frames[..|frames| - 1]) + [frames[|frames| - 1].data]
  {
  }

  /** One more frame on the line. */
  lemma FrameAppended(rx: Rx, b: nat, T: nat, head: seq<bool>, f: Frame)
    requires 0 < T && InStep(b, T) && RearmsInTime(b, T, f)
    requires After(rx, b, head, |head|).armed && (head == [] || head[|head| - 1])
    ensures var wave := head + FrameWave(f, T);
      After(rx, b, wave, |wave|).armed && After(rx, b, wave, |wave|).received == After(rx, b, head, |head|).received + [f.data]
  {
    var tail := FrameWave(f, T);
    AfterPrefix(rx, b, head, tail, |head|);
    assert |tail| == 10 * T + f.gap;
    hide *;
    assert (head + tail)[|head|..] == tail;
    FrameReceived(rx, b, T, head + tail, |head|, f);
  }

  // ---------------------------------------------------------------- and only then

  /** An armed receiver has the byte of the frame after it. */
  ghost predicate Rebuilt(rx: Rx, b: nat, T: nat, f: Frame)
    requires 0 < T
  {
    After(rx, b, FrameWave(f, T), |FrameWave(f, T)|).received == rx.received + [f.data]
  }

  /**
   * Given time to re-arm, every byte is rebuilt, whatever the receiver did before, exactly when the sender is in step: a
   * sample point outside its bit loses some byte.
   */
  lemma RebuiltIff(b: nat, T: nat, gap: nat)
    requires 0 < T && 0 < b && FirstSample(b) < TIMER && RearmsInTime(b, T, Frame(0, gap))
    ensures (forall rx: Rx, c: byte | rx.armed :: Rebuilt(rx, b, T, Frame(c, gap))) <==> InStep(b, T)
  {
    if InStep(b, T) {
      forall rx: Rx, c: byte | rx.armed ensures Rebuilt(rx, b, T, Frame(c, gap)) {
        var wave := FrameWave(Frame(c, gap), T);
        assert wave[0..] == wave && After(rx, b, wave, 0) == rx;
        hide After, FrameWave, InStep;
        FrameReceived(rx, b, T, wave, 0, Frame(c, gap));
      }
    } else {
      var k: nat :| k < 8 && !((k + 1) * T <= SamplePoint(b, k) < (k + 2) * T);
      var rx := Rx(true, 0, 0, 0, false, 0, []);
      var c := Misread(b, T, k);
      hide InStep, Rebuilt;
      NotRebuilt(rx, b, T, Frame(c, gap), k);
    }
  }

  /** The byte that shows a sample point out of place: all ones but, if another bit or the stop bit is sampled, bit k. */
  function Misread(b: nat, T: nat, k: nat): byte
    requires k < 8
  {
    if SamplePoint(b, k) < T then 0xFF else !Mask(k)
  }

  lemma NotRebuilt(rx: Rx, b: nat, T: nat, f: Frame, k: nat)
    requires rx.armed && 0 < T && 0 < b && FirstSample(b) < TIMER && RearmsInTime(b, T, f) && k < 8
    requires !((k + 1) * T <= SamplePoint(b, k) < (k + 2) * T) && f.data == Misread(b, T, k)
    ensures !Rebuilt(rx, b, T, f)
  {
    var wave := FrameWave(f, T);
    SamplesInside(b);
    var got := Sampled(wave, b);
    WrongSample(b, T, f, k);
    assert got != f.data;
    assert wave[0..] == wave && |wave| == 10 * T + f.gap && After(rx, b, wave, 0) == rx && SamplePoint(b, 8) < |wave|;
    StartsLow(T, wave, 0, f);
    hide *;
    FirstByte(rx, b, wave, got);
    NothingTakenBack(rx, b, wave, SamplePoint(b, 8) + 1, |wave|);
    assert rx.received + [got] <= After(rx, b, wave, |wave|).received;
    OtherByte(rx.received, After(rx, b, wave, |wave|).received, got, f.data);
    if Rebuilt(rx, b, T, f) {
      RebuiltMeans(rx, b, T, f);
    }
  }

  lemma RebuiltMeans(rx: Rx, b: nat, T: nat, f: Frame)
    requires 0 < T && Rebuilt(rx, b, T, f)
    ensures After(rx, b, FrameWave(f, T), |FrameWave(f, T)|).received == rx.received + [f.data]
  {
  }

  lemma OtherByte(before: seq<byte>, after: seq<byte>, got: byte, wanted: byte)
    requires before + [got] <= after && got != wanted
    ensures after != before + [wanted]
  {
    assert after[|before|] == (before + [got])[|before|] == got;
    assert (before + [wanted])[|before|] == wanted;
  }

  lemma SamplesInside(b: nat)
    requires 0 < b
    ensures forall j :: 0 <= j < 8 ==> SamplePoint(b, j) < SamplePoint(b, 8)
  {
    forall j | 0 <= j < 8 ensures SamplePoint(b, j) < SamplePoint(b, 8) {
      MulMono(j + 1, 8, b);
      MulStep(j, b);
    }
  }

  /** The byte whose bits these are, from the lowest. */
  function Packed(bits: seq<bool>): byte
    requires |bits| <= 8
  {
    if bits == [] then 0
    else
      var n := |bits| - 1;
      if bits[n] then Packed(bits[..n]) | Mask(n) else Packed(bits[..n])
  }

  lemma {:induction false} PackedBit(bits: seq<bool>, k: nat)
    requires |bits| <= 8 && k < 8
    ensures Packed(bits) & Mask(k) != 0 <==> k < |bits| && bits[k]
  {
    if bits != [] {
      var n := |bits| - 1;
      PackedBit(bits[..n], k);
      MaskedBits(Packed(bits[..n]), n, k);
      hide Mask;
    } else {
      assert 0 & Mask(k) == 0;
    }
  }

  /** What the sample points of a frame that starts the wave collect. */
  function Sampled(wave: seq<bool>, b: nat): byte
    requires forall j :: 0 <= j < 8 ==> SamplePoint(b, j) < |wave|
  {
    Packed(seq(8, j requires 0 <= j < 8 => wave[SamplePoint(b, j)]))
  }

  lemma SampledBits(wave: seq<bool>, b: nat, j: nat)
    requires (forall i :: 0 <= i < 8 ==> SamplePoint(b, i) < |wave|) && j < 8
    ensures wave[SamplePoint(b, j)] == (Sampled(wave, b) & Mask(j) != 0)
  {
    PackedBit(seq(8, i requires 0 <= i < 8 => wave[SamplePoint(b, i)]), j);
    hide Mask, Packed;
  }

  /** A sample point in another bit reads the other level of the misread byte. */
  lemma WrongSample(b: nat, T: nat, f: Frame, k: nat)
    requires 0 < T && k < 8 && (forall j :: 0 <= j < 8 ==> SamplePoint(b, j) < 10 * T + f.gap)
    requires !((k + 1) * T <= SamplePoint(b, k) < (k + 2) * T) && f.data == Misread(b, T, k)
    ensures Sampled(FrameWave(f, T), b) != f.data
  {
    var u := SamplePoint(b, k);
    SampledBits(FrameWave(f, T), b, k);
    MisreadBit(k);
    hide Sampled, SamplePoint, Mask;
    if u < T {
      FrameAt(f, T, 0, u);
    } else if u < 10 * T {
      OtherBit(f, T, k, u);
    }
  }

  lemma MisreadBit(k: nat)
    requires k < 8
    ensures 0xFF & Mask(k) != 0 && !Mask(k) & Mask(k) == 0
  {
  }

  lemma OtherBit(f: Frame, T: nat, k: nat, u: nat)
    requires 0 < T && k < 8 && T <= u < 10 * T && !((k + 1) * T <= u < (k + 2) * T) && f.data == !Mask(k)
    ensures FrameWave(f, T)[u]
  {
    var i := u / T;
    DivBound(u, T, 10);
    MulStep(i, T);
    FrameAt(f, T, i, u);
    if i == k + 1 {
      assert false;
    }
    if i == 0 {
      assert false;
    }
    if i <= 8 {
      InvertBit(Mask(k), i - 1);
      OneMask(k, i - 1);
    }
  }

  lemma OneMask(k: nat, j: nat)
    requires k < 8 && j < 8
    ensures Mask(k) & Mask(j) == 0 <==> k != j
  {
  }

  /** After the ninth sample the byte sampled has been received. */
  lemma FirstByte(rx: Rx, b: nat, wave: seq<bool>, got: byte)
    requires rx.armed && 0 < b && FirstSample(b) < TIMER && SamplePoint(b, 8) < |wave| && Falls(wave, 0) && After(rx, b, wave, 0) == rx
    requires (forall j :: 0 <= j < 8 ==> SamplePoint(b, j) < SamplePoint(b, 8)) && got == Sampled(wave, b)
    ensures After(rx, b, wave, SamplePoint(b, 8) + 1).received == rx.received + [got]
  {
    forall j | 0 <= j < 8 ensures wave[0 + SamplePoint(b, j)] == (got & Mask(j) != 0) {
      SampledBits(wave, b, j);
    }
    hide *;
    StartDetected(rx, b, wave, 0, got);
    AllSamples(rx, b, wave, 0, 8, got, rx.received);
    ByteDone(rx, b, wave, 0, got, rx.received);
  }

  /** What has been received stays received. */
  lemma {:induction false} NothingTakenBack(rx: Rx, b: nat, wave: seq<bool>, from: nat, until: nat)
    requires from <= until <= |wave|
    ensures After(rx, b, wave, from).received <= After(rx, b, wave, until).received
    decreases until - from
  {
    if from < until {
      NothingTakenBack(rx, b, wave, from, until - 1);
      hide Later, FirstSample, NextMask, Collect;
    }
  }

  // ---------------------------------------------------------------- what the program reads

  /** Polling leaves the receiver alone, but for the mark that a byte is there. */
  lemma {:induction false} LooksDoNotDisturb(rx: Rx, b: nat, wave: seq<bool>, looks: seq<bool>, n: nat)
    requires n <= |wave| == |looks|
    ensures Heard(rx, b, wave, looks, n).rx == After(rx, b, wave, n).(done := Heard(rx, b, wave, looks, n).rx.done)
  {
    if 0 < n {
      LooksDoNotDisturb(rx, b, wave, looks, n - 1);
      hide Falls, Later, FirstSample, NextMask, Collect;
    }
  }

  /** Does the tick complete a byte? */
  predicate Completes(rx: Rx, t: nat) {
    !rx.armed && t % TIMER == rx.ocr && rx.mask == 0
  }

  /** How many bytes are completed while the one before has not been read: that one is lost. */
  function Overruns(rx: Rx, b: nat, wave: seq<bool>, looks: seq<bool>, n: nat): nat
    requires n <= |wave| == |looks|
  {
    if n == 0 then 0
    else
      var before := Heard(rx, b, wave, looks, n - 1).rx;
      Overruns(rx, b, wave, looks, n - 1) + (if Completes(before, n - 1) && before.done then 1 else 0)
  }

  /** A byte that is there but has not been read. */
  function Waiting(rx: Rx): seq<byte> {
    if rx.done then [rx.data] else []
  }

  lemma TickAccount(rx: Rx, b: nat, wave: seq<bool>, t: nat)
    requires t < |wave|
    ensures var next := TickStep(rx, b, wave, t);
      if Completes(rx, t) then next.received == rx.received + [rx.tmp] && Waiting(next) == [rx.tmp]
      else next.received == rx.received && Waiting(next) == Waiting(rx)
  {
    hide Falls, Later, FirstSample, NextMask, Collect;
  }

  /** Every byte received has been read, waits to be read, or was lost. */
  lemma {:induction false} Account(rx: Rx, b: nat, wave: seq<bool>, looks: seq<bool>, n: nat)
    requires n <= |wave| == |looks| && !rx.done
    ensures var s, lost := Heard(rx, b, wave, looks, n), Overruns(rx, b, wave, looks, n);
      && |s.rx.received| == |rx.received| + |s.read| + |Waiting(s.rx)| + lost
      && (lost == 0 ==> s.rx.received == rx.received + s.read + Waiting(s.rx))
  {
    if 0 < n {
      Account(rx, b, wave, looks, n - 1);
      TickAccount(Heard(rx, b, wave, looks, n - 1).rx, b, wave, n - 1);
      hide TickStep, Completes;
    }
  }

  /** The program gets every byte received, in order, exactly when none is completed over one it has not read. */
  lemma ReadsAllIff(rx: Rx, b: nat, wave: seq<bool>, looks: seq<bool>)
    requires |wave| == |looks| && !rx.done
    ensures var s := Heard(rx, b, wave, looks, |wave|);
      s.rx.received == rx.received + s.read + Waiting(s.rx) <==> Overruns(rx, b, wave, looks, |wave|) == 0
  {
    Account(rx, b, wave, looks, |wave|);
  }

  ghost predicate LookWithin(looks: seq<bool>, t: nat, window: nat) {
    exists u :: t <= u < t + window && u < |looks| && looks[u]
  }

  /** A look in every stretch of `window` ticks. */
  ghost predicate LooksOften(looks: seq<bool>, window: nat) {
    forall t: nat :: t + window <= |looks| ==> LookWithin(looks, t, window)
  }

  /** Sampling: `k` bits are in of a byte whose start edge was at tick p, and the next sample is due at p + SamplePoint(b, k). */
  ghost predicate Timed(rx: Rx, b: nat, n: nat, p: nat, k: nat) {
    && k <= 8 && !rx.armed && rx.mask == SampleMask(k)
    && rx.ocr == (p + SamplePoint(b, k)) % TIMER && Mark(b, p, k) <= n <= p + SamplePoint(b, k)
  }

  /** A tick while sampling: nothing, the next bit, or the end of the byte at p + SamplePoint(b, 8). */
  lemma TimedTick(rx: Rx, b: nat, wave: seq<bool>, t: nat, p: nat, k: nat)
    requires 0 < b && FirstSample(b) < TIMER && t < |wave| && Timed(rx, b, t, p, k)
    ensures var next := TickStep(rx, b, wave, t);
      if t < p + SamplePoint(b, k) then next == rx && Timed(next, b, t + 1, p, k) && !Completes(rx, t)
      else if k < 8 then Timed(next, b, t + 1, p, k + 1) && next.done == rx.done && !Completes(rx, t)
      else next.armed && next.done && Completes(rx, t)
  {
    var due := p + SamplePoint(b, k);
    MarkBefore(b, p, k);
    if t < due {
      CompareDiffers(t, due);
      hide SampleMask, SamplePoint, Mark, SampleStep, EdgeStep;
    } else {
      SampleAfter(b, k);
      LaterMod(due, b);
      if k < 8 {
        NextSample(k);
      }
      hide SamplePoint, Later, Collect, NextMask, Mask, FirstSample;
    }
  }

  /** The tick of a start edge. */
  lemma EdgeTick(rx: Rx, b: nat, wave: seq<bool>, t: nat)
    requires 0 < b && FirstSample(b) < TIMER && t < |wave| && rx.armed
    ensures var next := TickStep(rx, b, wave, t);
      !Completes(rx, t) && next.done == rx.done && (next.armed || Timed(next, b, t + 1, t, 0))
  {
    SampleAfter(b, 0);
    LaterMod(t, FirstSample(b));
    MarkBefore(b, t, 0);
    hide SamplePoint, Later, Mask;
  }

  /** Where the receiver is after n ticks: the last start edge p, the bits in, and the tick c at which a byte that waits was completed. */
  ghost predicate Placed(rx: Rx, b: nat, looks: seq<bool>, n: nat, c: nat, p: nat, k: nat) {
    && (!rx.armed ==> Timed(rx, b, n, p, k))
    && (rx.done ==> c < n <= |looks| && (!rx.armed ==> c < p) && forall u :: c <= u < n ==> !looks[u])
  }

  /** With a look in every stretch of the time a byte takes, no byte is lost, on any line. */
  lemma {:induction false} KeepsUp(rx: Rx, b: nat, wave: seq<bool>, looks: seq<bool>, n: nat) returns (c: nat, p: nat, k: nat)
    requires 0 < b && FirstSample(b) < TIMER && n <= |wave| == |looks| && rx.armed && !rx.done
    requires LooksOften(looks, SamplePoint(b, 8) + 1)
    ensures Placed(Heard(rx, b, wave, looks, n).rx, b, looks, n, c, p, k) && Overruns(rx, b, wave, looks, n) == 0
  {
    if n == 0 {
      c, p, k := 0, 0, 0;
    } else {
      c, p, k := KeepsUp(rx, b, wave, looks, n - 1);
      var before := Heard(rx, b, wave, looks, n - 1).rx;
      c, p, k := PlacedTick(before, b, wave, looks, n - 1, c, p, k);
      assert Heard(rx, b, wave, looks, n).rx ==
        var next := TickStep(before, b, wave, n - 1); if looks[n - 1] then next.(done := false) else next;
      hide Placed, TickStep, Completes, LooksOften;
    }
  }

  lemma PlacedTick(rx: Rx, b: nat, wave: seq<bool>, looks: seq<bool>, t: nat, c: nat, p: nat, k: nat) returns (c': nat, p': nat, k': nat)
    requires 0 < b && FirstSample(b) < TIMER && t < |wave| == |looks| && LooksOften(looks, SamplePoint(b, 8) + 1)
    requires Placed(rx, b, looks, t, c, p, k)
    ensures !(Completes(rx, t) && rx.done)
    ensures var next := TickStep(rx, b, wave, t);
      Placed(if looks[t] then next.(done := false) else next, b, looks, t + 1, c', p', k')
  {
    c', p', k' := c, p, k;
    if rx.armed {
      EdgeTick(rx, b, wave, t);
      p', k' := t, 0;
      hide TickStep, Completes, SamplePoint, Mark, SampleMask;
    } else {
      TimedTick(rx, b, wave, t, p, k);
      var due := p + SamplePoint(b, k);
      if t == due && k < 8 {
        k' := k + 1;
      } else if t == due {
        assert rx.done ==> LookWithin(looks, c, SamplePoint(b, 8) + 1);
        c' := t;
      }
      TimedDone(TickStep(rx, b, wave, t), b, t + 1, p', k');
      hide TickStep, Completes, SamplePoint, Mark, SampleMask;
    }
  }

  lemma TimedDone(rx: Rx, b: nat, n: nat, p: nat, k: nat)
    ensures Timed(rx, b, n, p, k) == Timed(rx.(done := false), b, n, p, k)
  {
  }

  // ---------------------------------------------------------------- the two together

  /** Every level held for T ticks. */
  function Held(levels: seq<bool>, T: nat): seq<bool>
    requires 0 < T
  {
    seq(|levels| * T, t requires 0 <= t < |levels| * T => (DivBound(t, T, |levels|); levels[t / T]))
  }

  lemma HeldConcat(a: seq<bool>, b: seq<bool>, T: nat)
    requires 0 < T
    ensures Held(a + b, T) == Held(a, T) + Held(b, T)
  {
    Distribute(|a|, |b|, T);
    forall t: nat | t < |a + b| * T ensures Held(a + b, T)[t] == (Held(a, T) + Held(b, T))[t] {
      if t < |a| * T {
        HeldAt(a, b, T, t);
      } else {
        HeldLater(a, b, T, t - |a| * T);
      }
    }
  }

  lemma HeldAt(a: seq<bool>, b: seq<bool>, T: nat, t: nat)
    requires 0 < T && t < |a| * T
    ensures t < |a + b| * T && Held(a + b, T)[t] == Held(a, T)[t]
  {
    DivBound(t, T, |a|);
    MulMono(|a|, |a + b|, T);
  }

  lemma Distribute(m: nat, n: nat, T: nat)
    ensures (m + n) * T == m * T + n * T
  {
  }

  lemma HeldLater(a: seq<bool>, b: seq<bool>, T: nat, u: nat)
    requires 0 < T && u < |b| * T
    ensures |a + b| * T == |a| * T + |b| * T && Held(a + b, T)[|a| * T + u] == Held(b, T)[u]
  {
    DivBound(u, T, |b|);
    var q, r := u / T, u % T;
    Distribute(|a|, |b|, T);
    Distribute(|a|, q, T);
    DivUnique(|a| * T + u, T, |a| + q, r);
    assert (a + b)[|a| + q] == b[q];
  }

  /** The same frames with their gaps in ticks. */
  function InTicks(frames: seq<Frame>, T: nat): seq<Frame> {
    seq(|frames|, i requires 0 <= i < |frames| => Frame(frames[i].data, frames[i].gap * T))
  }

  lemma FrameHeld(f: Frame, T: nat)
    requires 0 < T
    ensures Held(FrameLevels(f.data) + seq(f.gap, _ => true), T) == FrameWave(Frame(f.data, f.gap * T), T)
  {
    var levels := FrameLevels(f.data) + seq(f.gap, _ => true);
    var wave := FrameWave(Frame(f.data, f.gap * T), T);
    assert |levels| * T == 10 * T + f.gap * T;
    forall t | 0 <= t < |wave| ensures Held(levels, T)[t] == wave[t] {
      DivBound(t, T, |levels|);
      if 10 <= t / T {
        MulMono(10, t / T, T);
      } else {
        MulMono(t / T + 1, 10, T);
        MulStep(t / T, T);
      }
    }
  }

  /** What the transmitter shifts out, held for its bit period, is a wave of frames. */
  lemma {:induction false} LevelsMakeWave(frames: seq<Frame>, T: nat)
    requires 0 < T
    ensures Held(Levels(frames), T) == Wave(InTicks(frames, T), T)
  {
    if frames != [] {
      var earlier, f := frames[..|frames| - 1], frames[|frames| - 1];
      LevelsMakeWave(earlier, T);
      HeldConcat(Levels(earlier), FrameLevels(f.data) + seq(f.gap, _ => true), T);
      FrameHeld(f, T);
      assert Levels(frames) == Levels(earlier) + (FrameLevels(f.data) + seq(f.gap, _ => true));
      assert InTicks(frames, T)[..|frames| - 1] == InTicks(earlier, T);
    }
  }

  /**
   * A sender and a receiver whose bit periods are in step, and a program that looks for bytes often enough: the program
   * reads what the sender is given.
   */
  method EndToEnd(tx: Transmitter, rx: Receiver, frames: seq<Frame>, T: nat, looks: seq<bool>) returns (read: seq<byte>)
    requires tx.stxCount == 0 && tx.line && rx.Valid() && rx.startArmed && !rx.srxDone
    requires 0 < T && InStep(rx.bitTicks, T)
    requires forall i :: 0 <= i < |frames| ==> RearmsInTime(rx.bitTicks, T, Frame(frames[i].data, frames[i].gap * T))
    requires |looks| == |Wave(InTicks(frames, T), T)| && LooksOften(looks, SamplePoint(rx.bitTicks, 8) + 1)
    modifies tx, rx
    ensures read == Data(frames) && rx.startArmed
  {
    hide InStep, RearmsInTime, After, Wave, Levels, Held, FirstSample, LooksOften, Heard, Looked, Waiting;
    var levels := tx.SendAll(frames);
    LevelsMakeWave(frames, T);
    StreamReceived(rx.Snapshot(), rx.bitTicks, T, InTicks(frames, T));
    assert Data(InTicks(frames, T)) == Data(frames);
    ghost var c, p, k := KeepsUp(rx.Snapshot(), rx.bitTicks, Held(levels, T), looks, |looks|);
    ReadsAllIff(rx.Snapshot(), rx.bitTicks, Held(levels, T), looks);
    LooksDoNotDisturb(rx.Snapshot(), rx.bitTicks, Held(levels, T), looks, |looks|);
    Regroup(rx.received, Heard(rx.Snapshot(), rx.bitTicks, Held(levels, T), looks, |looks|));
    ghost var before := rx.received;
    read := rx.Listen(Held(levels, T), looks);
    ghost var s := Listener(rx.Snapshot(), read);
    LookTakes(s);
    Behind(before, s.read + Waiting(s.rx), Data(frames));
    read := rx.Look(read);
  }

  /** A look takes the byte that waits. */
  lemma LookTakes(s: Listener)
    ensures Looked(s).read == s.read + Waiting(s.rx) && Looked(s).rx.armed == s.rx.armed
  {
  }

  lemma Regroup(before: seq<byte>, s: Listener)
    ensures before + s.read + Waiting(s.rx) == before + (s.read + Waiting(s.rx))
  {
  }

  lemma Behind(before: seq<byte>, a: seq<byte>, b: seq<byte>)
    requires before + a == before + b
    ensures a == b
  {
    assert (before + a)[|before|..] == a && (before + b)[|before|..] == b;
  }

  /** A transmitter with the receiver's own bit period is in step, and needs no gap between frames. */
  lemma OwnPeriodInStep(b: nat, f: Frame)
    requires 2 <= b && FirstSample(b) < TIMER
    ensures InStep(b, b) && RearmsInTime(b, b, f)
  {
    forall k | 0 <= k < 8 ensures (k + 1) * b <= SamplePoint(b, k) < (k + 2) * b {
      MulStep(k, b);
      MulStep(k + 1, b);
    }
  }

  /** At 104 ticks a bit (9600 baud from an 8 MHz clock) exactly the periods 99 to 110 are in step. */
  lemma Tolerance(T: nat)
    ensures InStep(104, T) <==> 99 <= T <= 110
  {
    assert SamplePoint(104, 7) == 884;
    if 99 <= T <= 110 {
      assert forall k :: 0 <= k < 8 ==> SamplePoint(104, k) == 156 + 104 * k;
    }
  }
}
