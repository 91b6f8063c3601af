/** RingBuff: a fixed circular byte buffer that drops its oldest element when it is full. */
module RingBuff {
  import opened Bytes

  const BUFF_LENGTH := 128

  /** The last `n` elements of a sequence. */
  function LastOf<T>(s: seq<T>, n: nat): seq<T> {
    if |s| <= n then s else s[|s| - n..]
  }

  /** Index x, at most one turn ahead, on the circle. */
  function Slot(x: nat): nat {
    if x < BUFF_LENGTH then x else x - BUFF_LENGTH
  }

  class RingBuffer {
    const buffer: array<byte>
    var inPtr: nat
    var outPtr: nat
    var elements: nat
    ghost var contents: seq<byte>

    ghost predicate Valid()
      reads this, buffer
    {
      && buffer.Length == BUFF_LENGTH && inPtr < BUFF_LENGTH && outPtr < BUFF_LENGTH
      && |contents| == elements <= BUFF_LENGTH && inPtr == Slot(outPtr + elements)
      && forall i :: 0 <= i < elements ==> contents[i] == buffer[Slot(outPtr + i)]
    }

    /** Buffer_Initialize. */
    constructor ()
      ensures Valid() && contents == [] && fresh(buffer)
    {
      buffer := new byte[BUFF_LENGTH];
      inPtr, outPtr, elements, contents := 0, 0, 0, [];
    }

    /** Buffer_StoreElement, with the drop-oldest policy. */
    method StoreElement(data: byte)
      requires Valid()
      modifies this, buffer
      ensures Valid() && contents == LastOf(old(contents) + [data], BUFF_LENGTH)
    {
      if elements == BUFF_LENGTH {
        outPtr := outPtr + 1;
        if outPtr == BUFF_LENGTH {
          outPtr := 0;
        }
      } else {
        elements := elements + 1;
      }
      buffer[inPtr] := data;
      inPtr := inPtr + 1;
      if inPtr == BUFF_LENGTH {
        inPtr := 0;
      }
      contents := LastOf(contents + [data], BUFF_LENGTH);
    }

    /** Buffer_GetElement; there is no check for an empty buffer. */
    method GetElement() returns (data: byte)
      requires Valid() && 0 < elements
      modifies this
      ensures Valid() && data == old(contents)[0] && contents == old(contents)[1..]
    {
      data := buffer[outPtr];
      outPtr := outPtr + 1;
      elements := elements - 1;
      if outPtr == BUFF_LENGTH {
        outPtr := 0;
      }
      contents := contents[1..];
    }
  }

  // ---------------------------------------------------------------- whole runs

  datatype Event = Arrive(data: byte) | Read

  /** What is in the buffer after a run. */
  function Unread(log: seq<Event>): (u: seq<byte>)
    ensures |u| <= BUFF_LENGTH
  {
    if log == [] then []
    else
      var u := Unread(log[..|log| - 1]);
      match log[|log| - 1]
      case Arrive(data) => LastOf(u + [data], BUFF_LENGTH)
      case Read => if u == [] then [] else u[1..]
  }

  /** What the reads of a run returned. */
  function Delivered(log: seq<Event>): seq<byte> {
    if log == [] then []
    else
      var prefix := log[..|log| - 1];
      Delivered(prefix) + (if log[|log| - 1].Read? && Unread(prefix) != [] then [Unread(prefix)[0]] else [])
  }

  function Arrivals(log: seq<Event>): seq<byte> {
    if log == [] then []
    else Arrivals(log[..|log| - 1]) + (if log[|log| - 1].Arrive? then [log[|log| - 1].data] else [])
  }

  /** No read finds the buffer empty. */
  predicate NeverReadEmpty(log: seq<Event>) {
    log != [] ==> NeverReadEmpty(log[..|log| - 1]) && (log[|log| - 1].Read? ==> Unread(log[..|log| - 1]) != [])
  }

  /** For each arrival that has left the buffer, in order: was it overwritten (true) or read (false)? */
  function Lost(log: seq<Event>): seq<bool> {
    if log == [] then []
    else
      var prefix := log[..|log| - 1];
      Lost(prefix) + (match log[|log| - 1]
                      case Arrive(_) => if |Unread(prefix)| == BUFF_LENGTH then [true] else []
                      case Read => if Unread(prefix) != [] then [false] else [])
  }

  /** The elements whose flag is false. */
  function Kept(s: seq<byte>, lost: seq<bool>): seq<byte>
    requires |s| == |lost|
  {
    if s == [] then []
    else Kept(s[..|s| - 1], lost[..|s| - 1]) + (if lost[|s| - 1] then [] else [s[|s| - 1]])
  }

  lemma KeptAppend(s: seq<byte>, lost: seq<bool>, x: byte, gone: bool)
    requires |s| == |lost|
    ensures Kept(s + [x], lost + [gone]) == Kept(s, lost) + if gone then [] else [x]
  {
    assert (s + [x])[..|s|] == s && (lost + [gone])[..|s|] == lost;
  }

  ghost predicate Accounted(arrived: seq<byte>, unread: seq<byte>, lost: seq<bool>, delivered: seq<byte>) {
    && |lost| + |unread| == |arrived|
    && unread == arrived[|lost|..] && delivered == Kept(arrived[..|lost|], lost)
  }

  lemma ArriveStep(arrived: seq<byte>, unread: seq<byte>, lost: seq<bool>, delivered: seq<byte>, x: byte)
    requires Accounted(arrived, unread, lost, delivered) && |unread| <= BUFF_LENGTH
    ensures Accounted(arrived + [x], LastOf(unread + [x], BUFF_LENGTH), lost + (if |unread| == BUFF_LENGTH then [true] else []), delivered)
  {
    var n := |lost|;
    assert (arrived + [x])[..n] == arrived[..n];
    if |unread| == BUFF_LENGTH {
      KeptAppend(arrived[..n], lost, arrived[n], true);
      assert (arrived + [x])[..n + 1] == arrived[..n] + [arrived[n]];
    } else {
      assert lost + [] == lost;
    }
  }

  lemma ReadStep(arrived: seq<byte>, unread: seq<byte>, lost: seq<bool>, delivered: seq<byte>)
    requires Accounted(arrived, unread, lost, delivered) && unread != []
    ensures Accounted(arrived, unread[1..], lost + [false], delivered + [unread[0]])
  {
    var n := |lost|;
    KeptAppend(arrived[..n], lost, arrived[n], false);
    assert arrived[..n + 1] == arrived[..n] + [arrived[n]];
  }

  /**
   * Every arrival is delivered, overwritten or still unread, in order: the unread ones are the newest, the
   * delivered ones are the others less those overwritten, and only an arrival at a full buffer overwrites.
   */
  lemma {:induction false} Accounting(log: seq<Event>)
    ensures |Lost(log)| + |Unread(log)| == |Arrivals(log)|
    ensures Unread(log) == Arrivals(log)[|Lost(log)|..]
    ensures Delivered(log) == Kept(Arrivals(log)[..|Lost(log)|], Lost(log))
  {
    if log != [] {
      var prefix, last := log[..|log| - 1], log[|log| - 1];
      Accounting(prefix);
      if last.Arrive? {
        ArriveStep(Arrivals(prefix), Unread(prefix), Lost(prefix), Delivered(prefix), last.data);
        assert Delivered(log) == Delivered(prefix);
      } else {
        assert Arrivals(log) == Arrivals(prefix);
        if Unread(prefix) != [] {
          ReadStep(Arrivals(prefix), Unread(prefix), Lost(prefix), Delivered(prefix));
        } else {
          assert Lost(log) == Lost(prefix) && Delivered(log) == Delivered(prefix);
        }
      }
    }
  }

  /** An overwritten byte had BUFF_LENGTH younger ones arrive before it could be read. */
  lemma {:induction false} LostNeedsFullBuffer(log: seq<Event>, i: nat)
    requires i < |Lost(log)| && Lost(log)[i]
    ensures i + BUFF_LENGTH < |Arrivals(log)|
  {
    var prefix := log[..|log| - 1];
    if i < |Lost(prefix)| {
      assert Lost(log)[i] == Lost(prefix)[i];
      LostNeedsFullBuffer(prefix, i);
    } else {
      Accounting(prefix);
    }
  }

  /** A run that never meets a full buffer loses nothing. */
  lemma {:induction false} NoOverflowNoLoss(log: seq<Event>)
    requires forall i :: 0 <= i < |Lost(log)| ==> !Lost(log)[i]
    ensures Delivered(log) + Unread(log) == Arrivals(log)
  {
    Accounting(log);
    KeptAll(Arrivals(log)[..|Lost(log)|], Lost(log));
  }

  lemma {:induction false} KeptAll(s: seq<byte>, lost: seq<bool>)
    requires |s| == |lost| && forall i :: 0 <= i < |lost| ==> !lost[i]
    ensures Kept(s, lost) == s
  {
    if s != [] {
      KeptAll(s[..|s| - 1], lost[..|s| - 1]);
      assert s == s[..|s| - 1] + [s[|s| - 1]];
    }
  }
}
