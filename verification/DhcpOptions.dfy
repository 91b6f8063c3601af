/** The option list of a DHCP packet: written and searched in place by walking tag and length bytes. */
module DhcpOptions {
  import opened Bytes

  const OPTION_END: octet := 255
  const HEADER_SIZE := 240

  datatype Opt = Opt(tag: octet, payload: seq<octet>)

  datatype Found = NotFound | Payload(data: seq<octet>)

  /** What SetOption can write: any tag but the terminator, any payload a length byte can count. */
  ghost predicate Writable(o: Opt) {
    o.tag != OPTION_END && |o.payload| <= 255
  }

  ghost predicate AllWritable(list: seq<Opt>) {
    forall i :: 0 <= i < |list| ==> Writable(list[i])
  }

  function EncodeOne(o: Opt): seq<octet>
    requires |o.payload| <= 255
  {
    [o.tag, |o.payload|] + o.payload
  }

  ghost function Encode(list: seq<Opt>): seq<octet>
    requires AllWritable(list)
  {
    if list == [] then [] else Encode(list[..|list| - 1]) + EncodeOne(list[|list| - 1])
  }

  /** The buffer starts with the list and its terminator. */
  ghost predicate Holds(buffer: seq<octet>, list: seq<Opt>) {
    AllWritable(list) && Encode(list) + [OPTION_END] <= buffer
  }

  /** The first option with the tag. */
  function Find(list: seq<Opt>, tag: octet): Found {
    if list == [] then NotFound else if list[0].tag == tag then Payload(list[0].payload) else Find(list[1..], tag)
  }

  /** Adding an option at the end leaves every search that succeeded before alone. */
  lemma {:induction false} FindAppend(list: seq<Opt>, o: Opt, tag: octet)
    ensures Find(list + [o], tag) == if Find(list, tag).Payload? then Find(list, tag) else if o.tag == tag then Payload(o.payload) else NotFound
  {
    if list != [] {
      FindAppend(list[1..], o, tag);
      assert (list + [o])[1..] == list[1..] + [o];
    }
  }

  lemma {:induction false} EncodeUpTo(list: seq<Opt>, k: nat)
    requires AllWritable(list) && k <= |list|
    ensures Encode(list[..k]) <= Encode(list)
  {
    if k < |list| {
      EncodeUpTo(list[..|list| - 1], k);
      assert list[..|list| - 1][..k] == list[..k];
    } else {
      assert list[..k] == list;
    }
  }

  /** Where option k of the list starts; for k == |list|, the terminator. */
  ghost function Offset(list: seq<Opt>, k: nat): nat
    requires AllWritable(list) && k <= |list|
  {
    |Encode(list[..k])|
  }

  lemma OffsetStep(list: seq<Opt>, k: nat)
    requires AllWritable(list) && k < |list|
    ensures Encode(list[..k + 1]) == Encode(list[..k]) + EncodeOne(list[k])
    ensures Offset(list, k + 1) == Offset(list, k) + 2 + |list[k].payload|
  {
    assert list[..k + 1][..k] == list[..k];
  }

  lemma OffsetEnds(list: seq<Opt>)
    requires AllWritable(list)
    ensures Offset(list, 0) == 0 && Offset(list, |list|) == |Encode(list)|
  {
    assert list[..0] == [] && list[..|list|] == list;
  }

  /** An option stands at a place of the buffer, and does not end it. */
  predicate Stands(buffer: seq<octet>, at: nat, o: Opt) {
    && at + 2 + |o.payload| < |buffer| && |o.payload| <= 255
    && buffer[at] == o.tag && buffer[at + 1] == |o.payload| && buffer[at + 2..at + 2 + |o.payload|] == o.payload
  }

  /** What the walk finds at option k. */
  lemma OptionAt(buffer: seq<octet>, list: seq<Opt>, k: nat)
    requires Holds(buffer, list) && k < |list|
    ensures Stands(buffer, Offset(list, k), list[k]) && list[k].tag != OPTION_END
    ensures Offset(list, k + 1) == Offset(list, k) + 2 + |list[k].payload| < |buffer|
  {
    EncodeUpTo(list, k + 1);
    OffsetStep(list, k);
    var head, one := Encode(list[..k]), EncodeOne(list[k]);
    hide Encode;
    EncodedStands(buffer, head, list[k], buffer[|head + one|..]);
  }

  lemma EncodedStands(buffer: seq<octet>, head: seq<octet>, o: Opt, rest: seq<octet>)
    requires |o.payload| <= 255 && rest != [] && buffer == head + EncodeOne(o) + rest
    ensures Stands(buffer, |head|, o)
  {
    var at, n := |head|, |o.payload|;
    assert buffer[at..at + 2 + n] == EncodeOne(o);
    assert buffer[at + 2..at + 2 + n] == buffer[at..at + 2 + n][2..];
  }

  lemma TerminatorAt(buffer: seq<octet>, list: seq<Opt>)
    requires Holds(buffer, list)
    ensures Offset(list, |list|) == |Encode(list)| < |buffer| && buffer[|Encode(list)|] == OPTION_END
  {
    OffsetEnds(list);
  }

  /** At an option's place that is not the terminator there is an option, and its length leads to the next one. */
  lemma WalkStep(buffer: seq<octet>, list: seq<Opt>, k: nat)
    requires Holds(buffer, list) && k <= |list|
    ensures Offset(list, k) < |buffer| && (buffer[Offset(list, k)] == OPTION_END <==> k == |list|)
    ensures k < |list| ==>
      Offset(list, k) + 1 < |buffer| && Offset(list, k + 1) == Offset(list, k) + 2 + buffer[Offset(list, k) + 1] < |buffer|
  {
    if k < |list| {
      OptionAt(buffer, list, k);
    } else {
      TerminatorAt(buffer, list);
    }
  }

  /** The walk to the terminator. */
  method SkipOptions(buffer: array<octet>, ghost list: seq<Opt>) returns (at: nat)
    requires Holds(buffer[..], list)
    ensures AllWritable(list) && at == |Encode(list)| < buffer.Length
  {
    at := 0;
    ghost var k, bytes := 0, buffer[..];
    OffsetEnds(list);
    WalkStep(bytes, list, 0);
    assert AllWritable(list);
    while buffer[at] != OPTION_END
      invariant k <= |list| && at == Offset(list, k) < |bytes|
      invariant bytes[at] == OPTION_END <==> k == |list|
      decreases |list| - k
    {
      WalkStep(bytes, list, k);
      WalkStep(bytes, list, k + 1);
      hide *;
      at := at + 2 + buffer[at + 1];
      k := k + 1;
    }
  }

  /** DHCPClientApp_SetOption: the new option replaces the terminator, a new terminator follows it. */
  method SetOption(buffer: array<octet>, tag: octet, data: seq<octet>, ghost list: seq<Opt>) returns (added: octet)
    requires Holds(buffer[..], list) && Writable(Opt(tag, data))
    requires |Encode(list)| + 2 + |data| < buffer.Length
    modifies buffer
    ensures Holds(buffer[..], list + [Opt(tag, data)])
    ensures buffer[|Encode(list)| + 3 + |data|..] == old(buffer[|Encode(list)| + 3 + |data|..])
    ensures added == (2 + |data|) % 256
  {
    var at := SkipOptions(buffer, list);
    hide Holds, Encode;
    buffer[at] := tag;
    buffer[at + 1] := |data|;
    for i := 0 to |data|
      invariant buffer[..at] == old(buffer[..at]) && buffer[at] == tag && buffer[at + 1] == |data|
      invariant buffer[at + 2..at + 2 + i] == data[..i]
      invariant buffer[at + 3 + |data|..] == old(buffer[at + 3 + |data|..])
    {
      buffer[at + 2 + i] := data[i];
    }
    buffer[at + 2 + |data|] := OPTION_END;
    Appended(old(buffer[..]), buffer[..], list, Opt(tag, data));
    added := (2 + |data|) % 256;
  }

  lemma Appended(before: seq<octet>, after: seq<octet>, list: seq<Opt>, o: Opt)
    requires Holds(before, list) && Writable(o) && |after| == |before|
    requires var at := |Encode(list)|;
      && at + 2 + |o.payload| < |before| && after[..at] == before[..at] && after[at] == o.tag && after[at + 1] == |o.payload|
      && after[at + 2..at + 2 + |o.payload|] == o.payload && after[at + 2 + |o.payload|] == OPTION_END
    ensures Holds(after, list + [o])
  {
    var at, n := |Encode(list)|, |o.payload|;
    assert (list + [o])[..|list|] == list;
    var all := Encode(list + [o]);
    assert all == Encode(list) + EncodeOne(o);
    assert after[..at] == Encode(list);
    forall i | 0 <= i < |all| + 1 ensures after[i] == (all + [OPTION_END])[i] {
      if i < at {
        assert after[i] == after[..at][i];
      } else if at + 2 <= i < at + 2 + n {
        assert after[i] == after[at + 2..at + 2 + n][i - at - 2];
      }
    }
  }

  /** Where a walk over the bytes of an option list ends. */
  datatype Place = At(pos: nat) | Missing | Outside

  /** The walk of the search: tag, length, on by two more than the length; Outside if it reads past the buffer. */
  function Walk(buffer: seq<octet>, at: nat, tag: octet): Place
    decreases |buffer| - at
  {
    if at >= |buffer| then Outside
    else if buffer[at] == OPTION_END then Missing
    else if buffer[at] == tag then At(at)
    else if at + 1 >= |buffer| then Outside
    else Walk(buffer, at + 2 + buffer[at + 1], tag)
  }

  /** The search ends inside the buffer, with the whole payload in it. */
  predicate Inside(buffer: seq<octet>, p: Place) {
    p == Missing || (p.At? && p.pos + 1 < |buffer| && p.pos + 2 + buffer[p.pos + 1] <= |buffer|)
  }

  function FoundAt(buffer: seq<octet>, p: Place): Found
    requires Inside(buffer, p)
  {
    if p == Missing then NotFound else Payload(buffer[p.pos + 2..p.pos + 2 + buffer[p.pos + 1]])
  }

  /** DHCPClientApp_GetOption: walks the bytes to the first place where the tag stands, and copies the payload there. */
  method GetOption(buffer: array<octet>, tag: octet) returns (found: Found)
    requires tag != OPTION_END && Inside(buffer[..], Walk(buffer[..], 0, tag))
    ensures found == FoundAt(buffer[..], Walk(buffer[..], 0, tag))
  {
    var at: nat := 0;
    ghost var bytes := buffer[..];
    while buffer[at] != OPTION_END
      invariant at < |bytes| && Walk(bytes, at, tag) == Walk(bytes, 0, tag)
      decreases |bytes| - at
    {
      if buffer[at] == tag {
        return Payload(buffer[at + 2..at + 2 + buffer[at + 1]]);
      }
      at := at + 2 + buffer[at + 1];
    }
    return NotFound;
  }

  /** In a well-formed list the walk finds what the list says. */
  lemma {:induction false} WalkFinds(buffer: seq<octet>, list: seq<Opt>, k: nat, tag: octet)
    requires Holds(buffer, list) && k <= |list| && tag != OPTION_END
    ensures var p := Walk(buffer, Offset(list, k), tag); Inside(buffer, p) && FoundAt(buffer, p) == Find(list[k..], tag)
    decreases |list| - k
  {
    FindStep(list, k, tag);
    if k == |list| {
      TerminatorAt(buffer, list);
      hide Offset, Encode;
    } else {
      OptionAt(buffer, list, k);
      if list[k].tag == tag {
        FoundHere(buffer, Offset(list, k), list[k]);
        hide *;
      } else {
        WalkFinds(buffer, list, k + 1, tag);
        WalkOn(buffer, Offset(list, k), list[k], tag);
        hide *;
      }
    }
  }

  /** An option with the tag looked for ends the walk. */
  lemma FoundHere(buffer: seq<octet>, at: nat, o: Opt)
    requires Stands(buffer, at, o) && o.tag != OPTION_END
    ensures Walk(buffer, at, o.tag) == At(at) && Inside(buffer, At(at)) && FoundAt(buffer, At(at)) == Payload(o.payload)
  {
  }

  /** An option with another tag is walked over. */
  lemma WalkOn(buffer: seq<octet>, at: nat, o: Opt, tag: octet)
    requires Stands(buffer, at, o) && o.tag != OPTION_END && o.tag != tag
    ensures Walk(buffer, at, tag) == Walk(buffer, at + 2 + |o.payload|, tag)
  {
  }

  /** So GetOption on a packet is Find on its options. */
  lemma SearchFinds(buffer: seq<octet>, list: seq<Opt>, tag: octet)
    requires Holds(buffer, list) && tag != OPTION_END
    ensures Inside(buffer, Walk(buffer, 0, tag)) && FoundAt(buffer, Walk(buffer, 0, tag)) == Find(list, tag)
  {
    OffsetEnds(list);
    assert list[0..] == list;
    WalkFinds(buffer, list, 0, tag);
  }

  lemma FindStep(list: seq<Opt>, k: nat, tag: octet)
    requires k <= |list|
    ensures Find(list[k..], tag) ==
      if k == |list| then NotFound else if list[k].tag == tag then Payload(list[k].payload) else Find(list[k + 1..], tag)
  {
    if k < |list| {
      assert list[k..][1..] == list[k + 1..];
    }
  }

  /** The option part of DHCPClientApp_FillDHCPHeader, in a cleared packet. */
  method FillHeader(buffer: array<octet>, messageType: octet) returns (size: nat)
    requires 4 <= buffer.Length
    modifies buffer
    ensures Holds(buffer[..], [Opt(53, [messageType])]) && size == HEADER_SIZE + 4
  {
    buffer[0] := 53;
    buffer[1] := 1;
    buffer[2] := messageType;
    buffer[3] := OPTION_END;
    ghost var list := [Opt(53, [messageType])];
    assert list[..0] == [] && Encode([]) == [];
    assert Encode(list) == [53, 1, messageType];
    return HEADER_SIZE + 4;
  }

  /** How many payloads are too long for SetOption's 8-bit return value. */
  function LongPayloads(list: seq<Opt>): nat {
    if list == [] then 0 else LongPayloads(list[..|list| - 1]) + (if |list[|list| - 1].payload| >= 254 then 1 else 0)
  }

  lemma {:induction false} NoLongPayloads(list: seq<Opt>)
    ensures LongPayloads(list) == 0 <==> forall i :: 0 <= i < |list| ==> |list[i].payload| <= 253
  {
    if list != [] {
      NoLongPayloads(list[..|list| - 1]);
      assert forall i :: 0 <= i < |list| - 1 ==> list[..|list| - 1][i] == list[i];
    }
  }

  /**
   * A whole packet: its options are the message type and the list, and the summed return values are the
   * packet's length exactly when no payload is longer than 253 bytes.
   */
  method BuildPacket(buffer: array<octet>, messageType: octet, list: seq<Opt>) returns (size: int)
    requires AllWritable(list) && |Encode([Opt(53, [messageType])] + list)| < buffer.Length && 4 <= buffer.Length
    modifies buffer
    ensures Holds(buffer[..], [Opt(53, [messageType])] + list)
    ensures size == HEADER_SIZE + |Encode([Opt(53, [messageType])] + list)| + 1 - 256 * LongPayloads(list)
  {
    ghost var head := [Opt(53, [messageType])];
    size := FillHeader(buffer, messageType);
    assert head[..0] == [] && |Encode(head)| == 3;
    assert head + list[..0] == head && list[..0] == [];
    assert AllWritable(head + list);
    hide Holds, Encode;
    for i := 0 to |list|
      invariant Holds(buffer[..], head + list[..i])
      invariant size == HEADER_SIZE + |Encode(head + list[..i])| + 1 - 256 * LongPayloads(list[..i])
    {
      ghost var next := head + list[..i + 1];
      OneMore(head, list, i);
      var added := SetOption(buffer, list[i].tag, list[i].payload, head + list[..i]);
      assert [Opt(list[i].tag, list[i].payload)] == [list[i]];
      size := size + added;
    }
    assert list[..|list|] == list;
  }

  lemma OneMore(head: seq<Opt>, list: seq<Opt>, i: nat)
    requires AllWritable(head + list) && i < |list|
    ensures AllWritable(head + list[..i]) && AllWritable(head + list[..i + 1]) && Writable(list[i])
    ensures head + list[..i] + [list[i]] == head + list[..i + 1]
    ensures |Encode(head + list[..i + 1])| == |Encode(head + list[..i])| + 2 + |list[i].payload| <= |Encode(head + list)|
    ensures LongPayloads(list[..i + 1]) == LongPayloads(list[..i]) + (if |list[i].payload| >= 254 then 1 else 0)
  {
    var all, n := head + list, |head| + i;
    Prefixes(head, list, i);
    OffsetStep(all, n);
    EncodeUpTo(all, n + 1);
    hide Encode, AllWritable;
  }

  lemma Prefixes(head: seq<Opt>, list: seq<Opt>, i: nat)
    requires i < |list|
    ensures var all, n := head + list, |head| + i;
      && all[..n] == head + list[..i] && all[..n + 1] == head + list[..i + 1] && all[n] == list[i]
      && head + list[..i] + [list[i]] == head + list[..i + 1] && list[..i + 1][..i] == list[..i]
  {
  }
}
