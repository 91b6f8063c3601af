/**
 * One-byte pad options (tag 0, RFC 2132 section 3.1) in front of the options of a packet: the client's search takes
 * a pad for a tag and the byte behind it for a length.
 */
module DhcpPads {
  import opened Bytes
  import opened DhcpOptions

  const PAD: octet := 0

  /** The search of a client that knows pads. */
  function RfcWalk(buffer: seq<octet>, at: nat, tag: octet): Place
    decreases |buffer| - at
  {
    if at >= |buffer| then Outside
    else if buffer[at] == OPTION_END then Missing
    else if buffer[at] == PAD then RfcWalk(buffer, at + 1, tag)
    else if buffer[at] == tag then At(at)
    else if at + 1 >= |buffer| then Outside
    else RfcWalk(buffer, at + 2 + buffer[at + 1], tag)
  }

  /** An option with the pads in front of it. */
  datatype Padded = Padded(pads: nat, option: Opt)

  function Pads(n: nat): (s: seq<octet>)
    ensures |s| == n
  {
    seq(n, _ => PAD)
  }

  ghost predicate Proper(layout: seq<Padded>) {
    forall k :: 0 <= k < |layout| ==> Writable(layout[k].option) && layout[k].option.tag != PAD
  }

  /** RFC 2131 section 4.1: an option appears once. */
  ghost predicate Distinct(layout: seq<Padded>) {
    forall i, j :: 0 <= i < j < |layout| ==> layout[i].option.tag != layout[j].option.tag
  }

  ghost function Spread(layout: seq<Padded>): seq<octet>
    requires Proper(layout)
  {
    if layout == [] then []
    else
      var last := layout[|layout| - 1];
      Spread(layout[..|layout| - 1]) + Pads(last.pads) + EncodeOne(last.option)
  }

  /** The packet: the layout, more pads, the terminator, and anything after it. */
  ghost predicate Carries(buffer: seq<octet>, layout: seq<Padded>, trailing: nat) {
    Proper(layout) && Spread(layout) + Pads(trailing) + [OPTION_END] <= buffer
  }

  /** Where the pads of option k start; for k == |layout|, the trailing pads. */
  ghost function PadsAt(layout: seq<Padded>, k: nat): nat
    requires Proper(layout) && k <= |layout|
  {
    |Spread(layout[..k])|
  }

  /** Where option k stands. */
  ghost function PlaceOf(layout: seq<Padded>, k: nat): nat
    requires Proper(layout) && k < |layout|
  {
    PadsAt(layout, k) + layout[k].pads
  }

  lemma {:induction false} SpreadUpTo(layout: seq<Padded>, k: nat)
    requires Proper(layout) && k <= |layout|
    ensures Spread(layout[..k]) <= Spread(layout)
  {
    if k < |layout| {
      SpreadUpTo(layout[..|layout| - 1], k);
      assert layout[..|layout| - 1][..k] == layout[..k];
    } else {
      assert layout[..k] == layout;
    }
  }

  /** What stands at option k: its pads, its tag, its length. */
  lemma OptionStands(buffer: seq<octet>, layout: seq<Padded>, trailing: nat, k: nat)
    requires Carries(buffer, layout, trailing) && k < |layout|
    ensures var p, at := PadsAt(layout, k), PlaceOf(layout, k);
      && at + 1 < |buffer| && (forall i :: p <= i < at ==> buffer[i] == PAD)
      && buffer[at] == layout[k].option.tag && buffer[at + 1] == |layout[k].option.payload|
      && PadsAt(layout, k + 1) == at + 2 + |layout[k].option.payload| < |buffer|
  {
    SpreadUpTo(layout, k + 1);
    assert layout[..k + 1][..k] == layout[..k];
    var last := layout[k];
    PiecesStand(buffer, Spread(layout[..k]), last.pads, EncodeOne(last.option));
  }

  /** Where the pads and the option behind them are. */
  lemma PiecesStand(buffer: seq<octet>, head: seq<octet>, n: nat, one: seq<octet>)
    requires head + Pads(n) + one <= buffer
    ensures forall i :: |head| <= i < |head| + n ==> buffer[i] == PAD
    ensures forall i :: 0 <= i < |one| ==> buffer[|head| + n + i] == one[i]
  {
    var whole := head + Pads(n) + one;
    forall i | |head| <= i < |head| + n ensures buffer[i] == PAD {
      assert buffer[i] == whole[i] == Pads(n)[i - |head|];
    }
    forall i | 0 <= i < |one| ensures buffer[|head| + n + i] == one[i] {
      assert buffer[|head| + n + i] == whole[|head| + n + i];
    }
  }

  lemma EndStands(buffer: seq<octet>, layout: seq<Padded>, trailing: nat)
    requires Carries(buffer, layout, trailing)
    ensures var p := PadsAt(layout, |layout|);
      && p + trailing < |buffer| && (forall i :: p <= i < p + trailing ==> buffer[i] == PAD) && buffer[p + trailing] == OPTION_END
  {
    assert layout[..|layout|] == layout;
    PiecesStand(buffer, Spread(layout), trailing, [OPTION_END]);
  }

  // ---------------------------------------------------------------- runs of pads

  /** Pads are taken in twos: after an even run the search is where it should be, after an odd one it has taken what follows for a length. */
  lemma {:induction false} WalkOverPads(buffer: seq<octet>, at: nat, n: nat, tag: octet)
    requires at + n < |buffer| && tag != PAD && forall i :: at <= i < at + n ==> buffer[i] == PAD
    ensures Walk(buffer, at, tag) == Walk(buffer, if n % 2 == 0 then at + n else at + n + 1 + buffer[at + n], tag)
    decreases n
  {
    if 2 <= n {
      assert buffer[at] == PAD && buffer[at + 1] == PAD;
      WalkOverPads(buffer, at + 2, n - 2, tag);
    } else if n == 1 {
      assert buffer[at] == PAD;
    }
  }

  lemma {:induction false} RfcOverPads(buffer: seq<octet>, at: nat, n: nat, tag: octet)
    requires at + n < |buffer| && forall i :: at <= i < at + n ==> buffer[i] == PAD
    ensures RfcWalk(buffer, at, tag) == RfcWalk(buffer, at + n, tag)
    decreases n
  {
    if 0 < n {
      assert buffer[at] == PAD;
      RfcOverPads(buffer, at + 1, n - 1, tag);
    }
  }

  /** A search never goes back. */
  lemma {:induction false} WalkGoesOn(buffer: seq<octet>, at: nat, tag: octet)
    ensures Walk(buffer, at, tag).At? ==> at <= Walk(buffer, at, tag).pos
    decreases |buffer| - at
  {
    if at + 1 < |buffer| && buffer[at] != OPTION_END && buffer[at] != tag {
      WalkGoesOn(buffer, at + 2 + buffer[at + 1], tag);
    }
  }

  ghost predicate EvenUpTo(layout: seq<Padded>, k: nat) {
    k <= |layout| && forall i :: 0 <= i < k ==> layout[i].pads % 2 == 0
  }

  ghost predicate AbsentUpTo(layout: seq<Padded>, k: nat, tag: octet) {
    k <= |layout| && forall i :: 0 <= i < k ==> layout[i].option.tag != tag
  }

  /** Even runs, and options with other tags, are walked over. */
  lemma {:induction false} WalkTo(buffer: seq<octet>, layout: seq<Padded>, trailing: nat, k: nat, tag: octet)
    requires Carries(buffer, layout, trailing) && EvenUpTo(layout, k) && AbsentUpTo(layout, k, tag) && tag != PAD && tag != OPTION_END
    ensures Walk(buffer, 0, tag) == Walk(buffer, PadsAt(layout, k), tag)
    decreases k
  {
    if 0 < k {
      WalkTo(buffer, layout, trailing, k - 1, tag);
      OptionStands(buffer, layout, trailing, k - 1);
      assert layout[k - 1].option.tag != tag && layout[k - 1].pads % 2 == 0 && Writable(layout[k - 1].option);
      EvenRunWalked(buffer, layout, k - 1, tag);
      hide *;
    } else {
      assert layout[..0] == [];
    }
  }

  lemma EvenRunWalked(buffer: seq<octet>, layout: seq<Padded>, k: nat, tag: octet)
    requires Proper(layout) && k < |layout| && tag != PAD && layout[k].option.tag != tag && layout[k].pads % 2 == 0
    requires var p, at := PadsAt(layout, k), PlaceOf(layout, k);
      && at + 1 < |buffer| && (forall i :: p <= i < at ==> buffer[i] == PAD)
      && buffer[at] == layout[k].option.tag && buffer[at + 1] == |layout[k].option.payload|
      && PadsAt(layout, k + 1) == at + 2 + |layout[k].option.payload| < |buffer|
    ensures Walk(buffer, PadsAt(layout, k), tag) == Walk(buffer, PadsAt(layout, k + 1), tag)
  {
    assert Writable(layout[k].option);
    hide PadsAt;
    WalkOverPads(buffer, PadsAt(layout, k), layout[k].pads, tag);
  }

  lemma {:induction false} RfcTo(buffer: seq<octet>, layout: seq<Padded>, trailing: nat, k: nat, tag: octet)
    requires Carries(buffer, layout, trailing) && AbsentUpTo(layout, k, tag) && tag != PAD && tag != OPTION_END
    ensures RfcWalk(buffer, 0, tag) == RfcWalk(buffer, PadsAt(layout, k), tag)
    decreases k
  {
    if 0 < k {
      RfcTo(buffer, layout, trailing, k - 1, tag);
      OptionStands(buffer, layout, trailing, k - 1);
      RfcOverPads(buffer, PadsAt(layout, k - 1), layout[k - 1].pads, tag);
    } else {
      assert layout[..0] == [];
    }
  }

  // ---------------------------------------------------------------- when the search is right

  /** A client that knows pads finds every option where it stands. */
  lemma RfcFinds(buffer: seq<octet>, layout: seq<Padded>, trailing: nat, k: nat)
    requires Carries(buffer, layout, trailing) && Distinct(layout) && k < |layout|
    ensures RfcWalk(buffer, 0, layout[k].option.tag) == At(PlaceOf(layout, k))
  {
    var tag := layout[k].option.tag;
    RfcTo(buffer, layout, trailing, k, tag);
    OptionStands(buffer, layout, trailing, k);
    RfcOverPads(buffer, PadsAt(layout, k), layout[k].pads, tag);
  }

  /** The search of the code finds an option behind even runs of pads. */
  lemma EvenRunsFound(buffer: seq<octet>, layout: seq<Padded>, trailing: nat, k: nat)
    requires Carries(buffer, layout, trailing) && Distinct(layout) && k < |layout| && EvenUpTo(layout, k + 1)
    ensures Walk(buffer, 0, layout[k].option.tag) == At(PlaceOf(layout, k))
  {
    var tag := layout[k].option.tag;
    WalkTo(buffer, layout, trailing, k, tag);
    OptionStands(buffer, layout, trailing, k);
    WalkOverPads(buffer, PadsAt(layout, k), layout[k].pads, tag);
  }

  /** Whatever the payloads hold, the option right behind the first odd run is not found where it stands. */
  lemma PadMisread(buffer: seq<octet>, layout: seq<Padded>, trailing: nat, k: nat)
    requires Carries(buffer, layout, trailing) && Distinct(layout) && k < |layout|
    requires EvenUpTo(layout, k) && layout[k].pads % 2 == 1
    ensures Walk(buffer, 0, layout[k].option.tag) != At(PlaceOf(layout, k))
  {
    var tag := layout[k].option.tag;
    WalkTo(buffer, layout, trailing, k, tag);
    OptionStands(buffer, layout, trailing, k);
    WalkOverPads(buffer, PadsAt(layout, k), layout[k].pads, tag);
    WalkGoesOn(buffer, PlaceOf(layout, k) + 1 + tag, tag);
  }

  lemma {:induction false} FirstOddRun(layout: seq<Padded>, from: nat) returns (k: nat)
    requires EvenUpTo(layout, from) && exists i :: 0 <= i < |layout| && layout[i].pads % 2 == 1
    ensures k < |layout| && EvenUpTo(layout, k) && layout[k].pads % 2 == 1
    decreases |layout| - from
  {
    if layout[from].pads % 2 == 1 {
      k := from;
    } else {
      k := FirstOddRun(layout, from + 1);
    }
  }

  /** All options of a packet are found, as a client that knows pads finds them, exactly when every run of pads before one is even. */
  lemma OptionsFoundIff(buffer: seq<octet>, layout: seq<Padded>, trailing: nat)
    requires Carries(buffer, layout, trailing) && Distinct(layout)
    ensures (forall k :: 0 <= k < |layout| ==> Walk(buffer, 0, layout[k].option.tag) == RfcWalk(buffer, 0, layout[k].option.tag))
      <==> EvenUpTo(layout, |layout|)
  {
    forall k | 0 <= k < |layout| ensures RfcWalk(buffer, 0, layout[k].option.tag) == At(PlaceOf(layout, k)) {
      RfcFinds(buffer, layout, trailing, k);
    }
    if EvenUpTo(layout, |layout|) {
      forall k | 0 <= k < |layout| ensures Walk(buffer, 0, layout[k].option.tag) == At(PlaceOf(layout, k)) {
        EvenRunsFound(buffer, layout, trailing, k);
      }
    } else {
      var k := FirstOddRun(layout, 0);
      PadMisread(buffer, layout, trailing, k);
    }
  }

  /**
   * The search for an option that is not there ends at the terminator when the pads before it are even; when they are
   * odd it takes the terminator for a length and reads on 256 bytes behind it.
   */
  lemma AbsentOption(buffer: seq<octet>, layout: seq<Padded>, trailing: nat, tag: octet)
    requires Carries(buffer, layout, trailing) && EvenUpTo(layout, |layout|) && tag != PAD && tag != OPTION_END
    requires AbsentUpTo(layout, |layout|, tag)
    ensures RfcWalk(buffer, 0, tag) == Missing
    ensures Walk(buffer, 0, tag) ==
      if trailing % 2 == 0 then Missing else Walk(buffer, PadsAt(layout, |layout|) + trailing + 256, tag)
  {
    var p := PadsAt(layout, |layout|);
    WalkTo(buffer, layout, trailing, |layout|, tag);
    RfcTo(buffer, layout, trailing, |layout|, tag);
    EndStands(buffer, layout, trailing);
    WalkOverPads(buffer, p, trailing, tag);
    RfcOverPads(buffer, p, trailing, tag);
  }

  /** In a buffer that ends before that, the two searches agree on a missing option exactly when those pads are even. */
  lemma AbsentAgreesIff(buffer: seq<octet>, layout: seq<Padded>, trailing: nat, tag: octet)
    requires Carries(buffer, layout, trailing) && EvenUpTo(layout, |layout|) && tag != PAD && tag != OPTION_END
    requires AbsentUpTo(layout, |layout|, tag) && |buffer| <= PadsAt(layout, |layout|) + trailing + 256
    ensures Walk(buffer, 0, tag) == RfcWalk(buffer, 0, tag) <==> trailing % 2 == 0
  {
    AbsentOption(buffer, layout, trailing, tag);
  }

  /** On lists without pads the two searches agree. */
  lemma {:induction false} RfcAgrees(buffer: seq<octet>, list: seq<Opt>, k: nat, tag: octet)
    requires Holds(buffer, list) && k <= |list| && tag != OPTION_END && tag != PAD
    requires forall i :: 0 <= i < |list| ==> list[i].tag != PAD
    ensures RfcWalk(buffer, Offset(list, k), tag) == Walk(buffer, Offset(list, k), tag)
    decreases |list| - k
  {
    if k < |list| {
      RfcAgrees(buffer, list, k + 1, tag);
      OptionAt(buffer, list, k);
    } else {
      TerminatorAt(buffer, list);
    }
  }
}
