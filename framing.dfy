/// How the encoder and the decoder fit together: what a frame and a stream
/// of frames decode to, and fresh-decoder clients that feed them whole or
/// split in two.
module Framing {
  import opened Slip
  import opened Encoding
  import opened Decoding

  /** The packets a fresh decoder yields for the frame of `p`. A leading END
      in front of a non-empty packet counts as an empty packet unless empty
      packets are ignored. */
  function Delivered(p: seq<byte>, terminateStart: bool, ignoreEmpty: bool): (r: seq<seq<byte>>)
    ensures ignoreEmpty ==> r == (if p == [] then [] else [p])
    ensures !ignoreEmpty ==> |r| == (if terminateStart && p != [] then 2 else 1) &&
                             r[|r| - 1] == p && (|r| == 2 ==> r[0] == [])
  {
    if p == [] then (if ignoreEmpty then [] else [[]])
    else (if terminateStart && !ignoreEmpty then [[]] else []) + [p]
  }

  /** The bytes sent for the packets `ps`, one frame after another. */
  function Stream(ps: seq<seq<byte>>, terminateStart: bool): seq<byte> {
    if ps == [] then [] else Frame(ps[0], terminateStart) + Stream(ps[1..], terminateStart)
  }

  function DeliveredAll(ps: seq<seq<byte>>, terminateStart: bool, ignoreEmpty: bool): seq<seq<byte>> {
    if ps == [] then []
    else Delivered(ps[0], terminateStart, ignoreEmpty) + DeliveredAll(ps[1..], terminateStart, ignoreEmpty)
  }

  /** The packets of `ps` that are not empty, in order. */
  function NonEmpty(ps: seq<seq<byte>>): seq<seq<byte>> {
    if ps == [] then []
    else (if ps[0] == [] then [] else [ps[0]]) + NonEmpty(ps[1..])
  }

  lemma SlotsOfAppend(a: seq<seq<byte>>, b: seq<seq<byte>>)
    ensures SlotsOf(a + b) == SlotsOf(a) + SlotsOf(b)
  {
    assert forall k :: 0 <= k < |a| ==> (a + b)[k] == a[k];
    assert forall k :: |a| <= k < |a| + |b| ==> (a + b)[k] == b[k - |a|];
  }

  /** Decoding the escape of one byte outside an escape stores that byte. */
  lemma EscapeDecodes(pending: seq<Slot>, x: byte, ignoreEmpty: bool)
    ensures Feed(State(false, pending), Escape(x), ignoreEmpty) ==
            Outcome(State(false, pending + [Byte(x)]), [], [])
  {
    if x == END || x == ESC {
      ValidEscapes(pending, ignoreEmpty);
    } else {
      assert [x][1..] == [];
    }
  }

  /** Decoding an escaped body outside an escape adds exactly the packet's
      bytes to the pending packet: nothing is yielded, nothing is reported. */
  lemma {:induction false} StuffDecodes(pending: seq<Slot>, p: seq<byte>, ignoreEmpty: bool)
    ensures Feed(State(false, pending), Stuff(p), ignoreEmpty) ==
            Outcome(State(false, pending + Slots(p)), [], [])
    decreases |p|
  {
    if p == [] {
      assert pending + Slots(p) == pending;
    } else {
      var next := pending + [Byte(p[0])];
      FeedSplit(State(false, pending), Escape(p[0]), Stuff(p[1..]), ignoreEmpty);
      EscapeDecodes(pending, p[0], ignoreEmpty);
      StuffDecodes(next, p[1..], ignoreEmpty);
      SlotsCons(pending, p);
    }
  }

  /** The body and trailing END of a non-empty packet, decoded from idle,
      yield exactly that packet. */
  lemma BodyDecodes(p: seq<byte>, ignoreEmpty: bool)
    requires p != []
    ensures Feed(Idle, Stuff(p) + [END], ignoreEmpty) == Outcome(Idle, [Slots(p)], [])
  {
    FeedSplit(Idle, Stuff(p), [END], ignoreEmpty);
    StuffDecodes([], p, ignoreEmpty);
    assert [] + Slots(p) == Slots(p);
    EndDelimits(Slots(p), [], ignoreEmpty);
    assert [END] + [] == [END];
  }

  /** A leading END in front of a non-empty body: an extra empty packet
      unless empty packets are ignored, then the packet itself. */
  lemma LeadingEndDecodes(p: seq<byte>, ignoreEmpty: bool)
    requires p != []
    ensures Feed(Idle, [END] + (Stuff(p) + [END]), ignoreEmpty) ==
            Outcome(Idle, (if ignoreEmpty then [] else [[]]) + [Slots(p)], [])
  {
    FeedSplit(Idle, [END], Stuff(p) + [END], ignoreEmpty);
    LoneEnd(ignoreEmpty);
    BodyDecodes(p, ignoreEmpty);
  }

  /** Round trip of one frame through a fresh decoder. */
  lemma FrameDecodes(p: seq<byte>, terminateStart: bool, ignoreEmpty: bool)
    ensures Feed(Idle, Frame(p, terminateStart), ignoreEmpty) ==
            Outcome(Idle, SlotsOf(Delivered(p, terminateStart, ignoreEmpty)), [])
  {
    SlotsOfSmall(p);
    var delivered := Delivered(p, terminateStart, ignoreEmpty);
    if p == [] {
      LoneEnd(ignoreEmpty);
    } else if terminateStart {
      assert Frame(p, terminateStart) == [END] + (Stuff(p) + [END]);
      LeadingEndDecodes(p, ignoreEmpty);
      assert SlotsOf(delivered) == (if ignoreEmpty then [] else [[]]) + [Slots(p)];
    } else {
      assert Frame(p, terminateStart) == Stuff(p) + [END];
      BodyDecodes(p, ignoreEmpty);
      assert SlotsOf(delivered) == [Slots(p)];
    }
  }

  /** Round trip of a whole stream of frames through a fresh decoder. */
  lemma {:induction false} StreamDecodes(ps: seq<seq<byte>>, terminateStart: bool, ignoreEmpty: bool)
    ensures Feed(Idle, Stream(ps, terminateStart), ignoreEmpty) ==
            Outcome(Idle, SlotsOf(DeliveredAll(ps, terminateStart, ignoreEmpty)), [])
  {
    if ps == [] {
      assert SlotsOf([]) == [];
    } else {
      FeedSplit(Idle, Frame(ps[0], terminateStart), Stream(ps[1..], terminateStart), ignoreEmpty);
      FrameDecodes(ps[0], terminateStart, ignoreEmpty);
      StreamDecodes(ps[1..], terminateStart, ignoreEmpty);
      SlotsOfAppend(Delivered(ps[0], terminateStart, ignoreEmpty),
                    DeliveredAll(ps[1..], terminateStart, ignoreEmpty));
    }
  }

  /** With empty packets ignored, exactly the non-empty packets come out,
      with or without a leading END per frame. */
  lemma {:induction false} DeliveredIgnoringEmpty(ps: seq<seq<byte>>, terminateStart: bool)
    ensures DeliveredAll(ps, terminateStart, true) == NonEmpty(ps)
  {
    if ps != [] {
      DeliveredIgnoringEmpty(ps[1..], terminateStart);
    }
  }

  /** Without leading ENDs and with empty packets kept, every packet comes
      out, empty ones included: a single END per empty packet is unambiguous. */
  lemma {:induction false} DeliveredKeepingEmpty(ps: seq<seq<byte>>)
    ensures DeliveredAll(ps, false, false) == ps
  {
    if ps != [] {
      DeliveredKeepingEmpty(ps[1..]);
      assert ps == [ps[0]] + ps[1..];
    }
  }

  lemma StreamIgnoringEmpty(ps: seq<seq<byte>>, terminateStart: bool)
    ensures Feed(Idle, Stream(ps, terminateStart), true) == Outcome(Idle, SlotsOf(NonEmpty(ps)), [])
  {
    StreamDecodes(ps, terminateStart, true);
    DeliveredIgnoringEmpty(ps, terminateStart);
  }

  lemma StreamKeepingEmpty(ps: seq<seq<byte>>)
    ensures Feed(Idle, Stream(ps, false), false) == Outcome(Idle, SlotsOf(ps), [])
  {
    StreamDecodes(ps, false, false);
    DeliveredKeepingEmpty(ps);
  }

  lemma Rejoin(s: seq<byte>, k: nat)
    requires k <= |s|
    ensures s[..k] + s[k..] == s
  {
  }

  /** Fragmentation invariance of the decoder: two calls yield, over
      both, packets that fit the same slots as one call on the concatenation,
      report the same invalid escapes, and leave the same model state. The
      bytes at invalid-escape positions may still differ with the split,
      because they are whatever the buffer held. */
  method DecodeTwo(d: SlipDecoder, first: seq<byte>, second: seq<byte>)
    returns (packets: seq<seq<byte>>, diagnostics: seq<byte>)
    requires d.Valid()
    modifies d, d.carry
    ensures d.Valid() && d.ignoreEmptyPackets == old(d.ignoreEmptyPackets)
    ensures d.maxCarryOversize == old(d.maxCarryOversize)
    ensures var o := Feed(old(d.Model()), first + second, d.ignoreEmptyPackets);
            d.Model() == o.after && FitsAll(packets, o.packets) && diagnostics == o.invalid
  {
    ghost var start := d.Model();
    var p1, d1 := d.Decode(first);
    ghost var o1 := Feed(start, first, d.ignoreEmptyPackets);
    var p2, d2 := d.Decode(second);
    packets, diagnostics := p1 + p2, d1 + d2;
    FeedSplit(start, first, second, d.ignoreEmptyPackets);
    FitsAllAppend(p1, o1.packets, p2, Feed(o1.after, second, d.ignoreEmptyPackets).packets);
  }

  /** Round trip: a fresh decoder turns the encoding of `p` into `[p]`,
      or into nothing when `p` is empty (empty packets are ignored by
      default). */
  method DecodeEncoded(p: seq<byte>, terminateStart: bool)
    returns (packets: seq<seq<byte>>, diagnostics: seq<byte>)
    ensures packets == (if p == [] then [] else [p]) && diagnostics == []
  {
    var encoded := EncodeSlip(p, terminateStart);
    var d := new SlipDecoder();
    packets, diagnostics := d.Decode(encoded);
    FrameDecodes(p, terminateStart, true);
    FitsAllSlots(packets, Delivered(p, terminateStart, true));
  }

  /** Fragmentation: the stream of frames of `ps`, split at any offset and
      fed to one default decoder in two calls, yields the non-empty packets
      of `ps` in order and reports nothing. */
  method DecodeSplit(ps: seq<seq<byte>>, terminateStart: bool, split: nat)
    returns (packets: seq<seq<byte>>, diagnostics: seq<byte>)
    requires split <= |Stream(ps, terminateStart)|
    ensures packets == NonEmpty(ps) && diagnostics == []
  {
    var transmitted := Stream(ps, terminateStart);
    var d := new SlipDecoder();
    packets, diagnostics := DecodeTwo(d, transmitted[..split], transmitted[split..]);
    Rejoin(transmitted, split);
    StreamIgnoringEmpty(ps, terminateStart);
    FitsAllSlots(packets, NonEmpty(ps));
  }

  /** Fragmentation with empty packets kept: every packet of `ps`, empty
      ones included, comes out of the split stream in order. */
  method DecodeSplitKeepingEmpty(ps: seq<seq<byte>>, split: nat)
    returns (packets: seq<seq<byte>>, diagnostics: seq<byte>)
    requires split <= |Stream(ps, false)|
    ensures packets == ps && diagnostics == []
  {
    var transmitted := Stream(ps, false);
    var d := new SlipDecoder();
    d.ignoreEmptyPackets := false;
    packets, diagnostics := DecodeTwo(d, transmitted[..split], transmitted[split..]);
    Rejoin(transmitted, split);
    StreamKeepingEmpty(ps);
    FitsAllSlots(packets, ps);
  }
}
