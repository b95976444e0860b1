/// The streaming decoder: a pure specification of what a byte stream
/// decodes to (Step, Feed), and the class SlipDecoder whose Decode method
/// assembles packets in a reused or reallocated carry buffer.
module Decoding {
  import opened Slip

  /** One position of a packet being assembled. `Unwritten` is a position the
      decoder advanced past without storing a byte (an invalid escape): the
      packet holds whatever the buffer already contained there. */
  datatype Slot = Byte(value: byte) | Unwritten

  function Slots(p: seq<byte>): seq<Slot> {
    seq(|p|, i requires 0 <= i < |p| => Byte(p[i]))
  }

  function SlotsOf(ps: seq<seq<byte>>): seq<seq<Slot>> {
    seq(|ps|, k requires 0 <= k < |ps| => Slots(ps[k]))
  }

  lemma SlotsCons(pending: seq<Slot>, p: seq<byte>)
    requires p != []
    ensures pending + Slots(p) == (pending + [Byte(p[0])]) + Slots(p[1..])
  {
    assert Slots(p) == [Byte(p[0])] + Slots(p[1..]);
  }

  lemma SlotsOfSmall(p: seq<byte>)
    ensures Slots([]) == [] && SlotsOf([]) == []
    ensures SlotsOf([p]) == [Slots(p)] && SlotsOf([[]] + [p]) == [[], Slots(p)]
  {
    assert SlotsOf([p])[0] == Slots(p);
    assert SlotsOf([[]] + [p])[1] == Slots(p);
  }

  /** `bytes` is a possible content of the positions `slots`: same length,
      and equal wherever a byte was actually stored. */
  predicate Fits(bytes: seq<byte>, slots: seq<Slot>) {
    |bytes| == |slots| &&
    forall i :: 0 <= i < |slots| && slots[i].Byte? ==> bytes[i] == slots[i].value
  }

  predicate FitsAll(packets: seq<seq<byte>>, slots: seq<seq<Slot>>) {
    |packets| == |slots| &&
    forall k :: 0 <= k < |slots| ==> Fits(packets[k], slots[k])
  }

  /** The decoder's state between bytes: escape pending, and the positions
      assembled since the last END. */
  datatype State = State(esc: bool, pending: seq<Slot>)

  /** What feeding some bytes does: the state afterwards, the packets
      yielded in order, and the invalid escape codes reported in order. */
  datatype Outcome = Outcome(after: State, packets: seq<seq<Slot>>, invalid: seq<byte>)

  /** The state of a decoder that has seen nothing (or only whole frames). */
  const Idle := State(false, [])

  /** First one outcome, then another that starts where the first ended. */
  function Then(first: Outcome, second: Outcome): Outcome {
    Outcome(second.after, first.packets + second.packets, first.invalid + second.invalid)
  }

  /** The effect of one byte `c` of a chunk. */
  function Step(s: State, c: byte, ignoreEmpty: bool): (r: Outcome)
    ensures |r.packets| <= 1 && |r.invalid| <= 1
  {
    if s.esc then
      if c == ESC_END then Outcome(State(false, s.pending + [Byte(END)]), [], [])
      else if c == ESC_ESC then Outcome(State(false, s.pending + [Byte(ESC)]), [], [])
      else Outcome(State(false, s.pending + [Unwritten]), [], [c])
    else if c == ESC then Outcome(State(true, s.pending), [], [])
    else if c == END then
      Outcome(Idle, if !ignoreEmpty || |s.pending| != 0 then [s.pending] else [], [])
    else Outcome(State(false, s.pending + [Byte(c)]), [], [])
  }

  /** The effect of a sequence of bytes, one Step after another. */
  function Feed(s: State, chunk: seq<byte>, ignoreEmpty: bool): (r: Outcome)
    decreases |chunk|
  {
    if chunk == [] then Outcome(s, [], [])
    else
      var first := Step(s, chunk[0], ignoreEmpty);
      Then(first, Feed(first.after, chunk[1..], ignoreEmpty))
  }

  lemma ThenAssociative(x: Outcome, y: Outcome, z: Outcome)
    ensures Then(x, Then(y, z)) == Then(Then(x, y), z)
  {
    assert x.packets + (y.packets + z.packets) == (x.packets + y.packets) + z.packets;
    assert x.invalid + (y.invalid + z.invalid) == (x.invalid + y.invalid) + z.invalid;
  }

  /** Fragmentation invariance of the specification: feeding `a + b` is
      feeding `a`, then feeding `b` from the state `a` left behind. */
  lemma {:induction false} FeedSplit(s: State, a: seq<byte>, b: seq<byte>, ignoreEmpty: bool)
    ensures Feed(s, a + b, ignoreEmpty) ==
            Then(Feed(s, a, ignoreEmpty), Feed(Feed(s, a, ignoreEmpty).after, b, ignoreEmpty))
    decreases |a|
  {
    if a == [] {
      assert a + b == b;
    } else {
      assert (a + b)[0] == a[0];
      assert (a + b)[1..] == a[1..] + b;
      var first := Step(s, a[0], ignoreEmpty);
      var head := Feed(first.after, a[1..], ignoreEmpty);
      FeedSplit(first.after, a[1..], b, ignoreEmpty);
      assert Feed(s, a + b, ignoreEmpty) ==
             Then(first, Then(head, Feed(head.after, b, ignoreEmpty)));
      assert Feed(s, a, ignoreEmpty) == Then(first, head);
      ThenAssociative(first, head, Feed(head.after, b, ignoreEmpty));
    }
  }

  lemma FeedSnoc(s: State, chunk: seq<byte>, i: nat, ignoreEmpty: bool)
    requires i < |chunk|
    ensures Feed(s, chunk[..i + 1], ignoreEmpty) ==
            Then(Feed(s, chunk[..i], ignoreEmpty),
                 Step(Feed(s, chunk[..i], ignoreEmpty).after, chunk[i], ignoreEmpty))
  {
    assert chunk[..i + 1] == chunk[..i] + [chunk[i]];
    FeedSplit(s, chunk[..i], [chunk[i]], ignoreEmpty);
  }

  /** A chunk adds at most one position per byte to the pending packet. */
  lemma {:induction false} FeedGrowth(s: State, chunk: seq<byte>, ignoreEmpty: bool)
    ensures |Feed(s, chunk, ignoreEmpty).after.pending| <= |s.pending| + |chunk|
    decreases |chunk|
  {
    if chunk != [] {
      FeedGrowth(Step(s, chunk[0], ignoreEmpty).after, chunk[1..], ignoreEmpty);
    }
  }

  /** After ESC, any byte other than ESC_END or ESC_ESC (END included) is
      an invalid escape: it is reported, takes one position whose content is
      not stored, and neither ends the packet nor leaves an escape pending. */
  lemma InvalidEscape(pending: seq<Slot>, c: byte, rest: seq<byte>, ignoreEmpty: bool)
    requires c != ESC_END && c != ESC_ESC
    ensures Feed(State(false, pending), [ESC, c] + rest, ignoreEmpty) ==
            Then(Outcome(State(false, pending + [Unwritten]), [], [c]),
                 Feed(State(false, pending + [Unwritten]), rest, ignoreEmpty))
  {
    FeedSplit(State(false, pending), [ESC, c], rest, ignoreEmpty);
    assert [ESC, c][1..] == [c];
  }

  /** The two valid escape sequences store END and ESC respectively. */
  lemma ValidEscapes(pending: seq<Slot>, ignoreEmpty: bool)
    ensures Feed(State(false, pending), [ESC, ESC_END], ignoreEmpty) ==
            Outcome(State(false, pending + [Byte(END)]), [], [])
    ensures Feed(State(false, pending), [ESC, ESC_ESC], ignoreEmpty) ==
            Outcome(State(false, pending + [Byte(ESC)]), [], [])
  {
    var escaped := State(true, pending);
    assert [ESC, ESC_END][1..] == [ESC_END] && [ESC_END][1..] == [];
    assert Feed(escaped, [ESC_END], ignoreEmpty) == Step(escaped, ESC_END, ignoreEmpty);
    assert [ESC, ESC_ESC][1..] == [ESC_ESC] && [ESC_ESC][1..] == [];
    assert Feed(escaped, [ESC_ESC], ignoreEmpty) == Step(escaped, ESC_ESC, ignoreEmpty);
  }

  /** An END that is not escaped closes the packet: it is yielded unless it
      is empty and empty packets are ignored, and decoding restarts idle. */
  lemma EndDelimits(pending: seq<Slot>, rest: seq<byte>, ignoreEmpty: bool)
    ensures Feed(State(false, pending), [END] + rest, ignoreEmpty) ==
            Then(Outcome(Idle, if !ignoreEmpty || pending != [] then [pending] else [], []),
                 Feed(Idle, rest, ignoreEmpty))
  {
    FeedSplit(State(false, pending), [END], rest, ignoreEmpty);
  }

  /** A lone END is one empty packet, or none when empty packets are ignored. */
  lemma LoneEnd(ignoreEmpty: bool)
    ensures Feed(Idle, [END], ignoreEmpty) == Outcome(Idle, if ignoreEmpty then [] else [[]], [])
  {
    assert [END][1..] == [];
  }

  /** Outside an escape, a byte other than END and ESC is stored as is. */
  lemma PlainByte(pending: seq<Slot>, x: byte, rest: seq<byte>, ignoreEmpty: bool)
    requires x != END && x != ESC
    ensures Feed(State(false, pending), [x] + rest, ignoreEmpty) ==
            Feed(State(false, pending + [Byte(x)]), rest, ignoreEmpty)
  {
    assert ([x] + rest)[0] == x && ([x] + rest)[1..] == rest;
    var o := Feed(State(false, pending + [Byte(x)]), rest, ignoreEmpty);
    assert Then(Outcome(State(false, pending + [Byte(x)]), [], []), o) == o;
  }

  /** A literal case: an escaped END inside a packet. */
  lemma EscapedEndExample(ignoreEmpty: bool)
    ensures Feed(Idle, [1, ESC, ESC_END, 5, END], ignoreEmpty).packets == [[Byte(1), Byte(END), Byte(5)]]
  {
    var done := Then(Outcome(Idle, [[Byte(1), Byte(END), Byte(5)]], []), Feed(Idle, [], ignoreEmpty));
    calc {
      Feed(Idle, [1, ESC, ESC_END, 5, END], ignoreEmpty);
      { assert [1, ESC, ESC_END, 5, END] == [1] + [ESC, ESC_END, 5, END];
        PlainByte([], 1, [ESC, ESC_END, 5, END], ignoreEmpty);
        assert [] + [Byte(1)] == [Byte(1)]; }
      Feed(State(false, [Byte(1)]), [ESC, ESC_END, 5, END], ignoreEmpty);
      { assert [ESC, ESC_END, 5, END] == [ESC, ESC_END] + [5, END];
        FeedSplit(State(false, [Byte(1)]), [ESC, ESC_END], [5, END], ignoreEmpty);
        ValidEscapes([Byte(1)], ignoreEmpty);
        assert [Byte(1)] + [Byte(END)] == [Byte(1), Byte(END)]; }
      Feed(State(false, [Byte(1), Byte(END)]), [5, END], ignoreEmpty);
      { assert [5, END] == [5] + [END];
        PlainByte([Byte(1), Byte(END)], 5, [END], ignoreEmpty);
        assert [Byte(1), Byte(END)] + [Byte(5)] == [Byte(1), Byte(END), Byte(5)]; }
      Feed(State(false, [Byte(1), Byte(END), Byte(5)]), [END], ignoreEmpty);
      { assert [END] == [END] + [];
        EndDelimits([Byte(1), Byte(END), Byte(5)], [], ignoreEmpty); }
      done;
    }
  }

  /** A literal case: ESC_END passes through when it does not follow ESC. */
  lemma BareEscEndExample(ignoreEmpty: bool)
    ensures Feed(Idle, [1, ESC_END, 5, END], ignoreEmpty).packets == [[Byte(1), Byte(ESC_END), Byte(5)]]
  {
    var done' := Then(Outcome(Idle, [[Byte(1), Byte(ESC_END), Byte(5)]], []), Feed(Idle, [], ignoreEmpty));
    calc {
      Feed(Idle, [1, ESC_END, 5, END], ignoreEmpty);
      { assert [1, ESC_END, 5, END] == [1] + [ESC_END, 5, END];
        PlainByte([], 1, [ESC_END, 5, END], ignoreEmpty);
        assert [] + [Byte(1)] == [Byte(1)]; }
      Feed(State(false, [Byte(1)]), [ESC_END, 5, END], ignoreEmpty);
      { assert [ESC_END, 5, END] == [ESC_END] + [5, END];
        PlainByte([Byte(1)], ESC_END, [5, END], ignoreEmpty);
        assert [Byte(1)] + [Byte(ESC_END)] == [Byte(1), Byte(ESC_END)]; }
      Feed(State(false, [Byte(1), Byte(ESC_END)]), [5, END], ignoreEmpty);
      { assert [5, END] == [5] + [END];
        PlainByte([Byte(1), Byte(ESC_END)], 5, [END], ignoreEmpty);
        assert [Byte(1), Byte(ESC_END)] + [Byte(5)] == [Byte(1), Byte(ESC_END), Byte(5)]; }
      Feed(State(false, [Byte(1), Byte(ESC_END), Byte(5)]), [END], ignoreEmpty);
      { assert [END] == [END] + [];
        EndDelimits([Byte(1), Byte(ESC_END), Byte(5)], [], ignoreEmpty); }
      done';
    }
  }

  lemma FitsExtend(bytes: seq<byte>, slots: seq<Slot>, x: byte, s: Slot)
    requires Fits(bytes, slots)
    requires s.Byte? ==> x == s.value
    ensures Fits(bytes + [x], slots + [s])
  {
    forall i | 0 <= i < |slots| + 1 && (slots + [s])[i].Byte?
      ensures (bytes + [x])[i] == (slots + [s])[i].value
    {
      if i < |slots| {
        assert (bytes + [x])[i] == bytes[i];
      }
    }
  }

  lemma FitsAllAppend(p: seq<seq<byte>>, s: seq<seq<Slot>>, q: seq<seq<byte>>, t: seq<seq<Slot>>)
    requires FitsAll(p, s) && FitsAll(q, t)
    ensures FitsAll(p + q, s + t)
  {
    forall k | 0 <= k < |s| + |t| ensures Fits((p + q)[k], (s + t)[k]) {
      if k < |s| {
        assert (p + q)[k] == p[k] && (s + t)[k] == s[k];
      } else {
        assert (p + q)[k] == q[k - |s|] && (s + t)[k] == t[k - |s|];
      }
    }
  }

  /** Packets assembled only from stored bytes are determined exactly. */
  lemma FitsSlots(bytes: seq<byte>, p: seq<byte>)
    ensures Fits(bytes, Slots(p)) <==> bytes == p
  {
    if Fits(bytes, Slots(p)) {
      assert forall i :: 0 <= i < |p| ==> bytes[i] == Slots(p)[i].value;
    }
  }

  lemma FitsAllSlots(packets: seq<seq<byte>>, ps: seq<seq<byte>>)
    ensures FitsAll(packets, SlotsOf(ps)) <==> packets == ps
  {
    if FitsAll(packets, SlotsOf(ps)) {
      forall k | 0 <= k < |ps| ensures packets[k] == ps[k] {
        FitsSlots(packets[k], ps[k]);
      }
    } else if packets == ps {
      forall k | 0 <= k < |ps| ensures Fits(packets[k], SlotsOf(ps)[k]) {
        FitsSlots(packets[k], ps[k]);
      }
    }
  }

  class SlipDecoder {
    /** Buffer slack tolerated before the carry is cut (shrink test of decode). */
    var maxCarryOversize: int
    /** When set, an END with nothing assembled yields no packet. */
    var ignoreEmptyPackets: bool

    var carry: array<byte>
    var carrySize: nat
    var esc: bool

    /** The positions assembled since the last END, as Feed sees them. */
    ghost var pending: seq<Slot>

    ghost predicate Valid()
      reads this, carry
    {
      carrySize == |pending| <= carry.Length &&
      Fits(carry[..carrySize], pending)
    }

    /** The decoder's state in the terms of the specification. */
    ghost function Model(): State
      reads this
    {
      State(esc, pending)
    }

    constructor ()
      ensures Valid() && Model() == Idle
      ensures maxCarryOversize == 100 && ignoreEmptyPackets
      ensures fresh(carry) && carry.Length == 0
    {
      maxCarryOversize := 100;
      ignoreEmptyPackets := true;
      carry := new byte[0];
      carrySize := 0;
      esc := false;
      pending := [];
    }

    /** The buffer for one call (src/slip.core.ts:131-139, reuse or a new
        buffer with 10 bytes of slack): the carry itself when it can take the
        chunk, else a new buffer holding a copy of the carry at its head. */
    method Reserve(n: nat) returns (b: array<byte>)
      requires Valid()
      ensures carrySize + n <= b.Length
      ensures b[..carrySize] == carry[..carrySize]
      ensures if carrySize + n <= carry.Length then b == carry
              else fresh(b) && b.Length == carrySize + n + 10
    {
      var maxSize := carrySize + n;
      var reuse := maxSize <= carry.Length;
      if reuse {
        b := carry;
      } else {
        b := new byte[maxSize + 10];
        if carrySize > 0 {
          forall k | 0 <= k < carry.Length {
            b[k] := carry[k];
          }
          assert b[..carrySize] == carry[..carrySize];
        }
      }
    }

    /** One turn of the scan: byte `c` arrives while `b[..bi]` holds the
        positions of `s.pending`. Yields at most one packet, a copy of the
        assembled bytes, and reports at most one invalid escape code. */
    method Absorb(b: array<byte>, bi: nat, c: byte, ghost s: State)
      returns (next: nat, yielded: seq<seq<byte>>, reported: seq<byte>)
      requires bi < b.Length
      requires esc == s.esc && bi == |s.pending| && Fits(b[..bi], s.pending)
      modifies b, this`esc
      ensures var st := Step(s, c, ignoreEmptyPackets);
              esc == st.after.esc && next == |st.after.pending| &&
              Fits(b[..next], st.after.pending) &&
              FitsAll(yielded, st.packets) && reported == st.invalid
    {
      ghost var st := Step(s, c, ignoreEmptyPackets);
      ghost var assembled := b[..bi];
      next, yielded, reported := bi, [], [];
      if esc {
        if c == ESC_END {
          b[next] := END;
        } else if c == ESC_ESC {
          b[next] := ESC;
        } else {
          reported := [c];
        }
        assert b[..bi + 1] == assembled + [b[bi]];
        FitsExtend(assembled, s.pending, b[bi], st.after.pending[bi]);
        next := next + 1;
        esc := false;
      } else if c == ESC {
        esc := true;
      } else if c == END {
        if !ignoreEmptyPackets || bi != 0 {
          yielded := [b[..bi]];
        }
        next := 0;
        esc := false;
      } else {
        b[next] := c;
        assert b[..bi + 1] == assembled + [c];
        FitsExtend(assembled, s.pending, c, Byte(c));
        next := next + 1;
      }
    }

    /** Saving the carry after the scan: the shrink test, then either the
        buffer itself, a copy of its assembled prefix, or the old carry. */
    method Keep(b: array<byte>, bi: nat, ghost assembled: seq<Slot>)
      requires bi <= b.Length && bi == |assembled| && Fits(b[..bi], assembled)
      modifies this
      ensures Valid() && carrySize == bi && pending == assembled
      ensures esc == old(esc) && maxCarryOversize == old(maxCarryOversize)
      ensures ignoreEmptyPackets == old(ignoreEmptyPackets)
      ensures if b.Length < bi - maxCarryOversize then carry == b
              else if bi > 0 then fresh(carry) && carry[..] == b[..bi]
              else carry == old(carry)
    {
      carrySize := bi;
      if b.Length < bi - maxCarryOversize {
        carry := b;
      } else if bi > 0 {
        carry := new byte[bi](k requires 0 <= k < bi reads b => b[k]);
        assert carry[..] == b[..bi];
      }
      pending := assembled;
    }

    /** The scan of one chunk: every byte in order through Absorb, starting
        from the positions `b[..bi]` of `s.pending`. Every write stays below
        `bi + |chunk|`, hence inside `b`. */
    method Scan(b: array<byte>, bi: nat, chunk: seq<byte>, ghost s: State)
      returns (next: nat, packets: seq<seq<byte>>, diagnostics: seq<byte>)
      requires bi + |chunk| <= b.Length
      requires esc == s.esc && bi == |s.pending| && Fits(b[..bi], s.pending)
      modifies b, this`esc
      ensures next <= bi + |chunk|
      ensures var o := Feed(s, chunk, ignoreEmptyPackets);
              esc == o.after.esc && next == |o.after.pending| && Fits(b[..next], o.after.pending) &&
              FitsAll(packets, o.packets) && diagnostics == o.invalid
    {
      next := bi;
      ghost var o := Outcome(s, [], []);
      packets, diagnostics := [], [];
      for i := 0 to |chunk|
        invariant next <= bi + i
        invariant o == Feed(s, chunk[..i], ignoreEmptyPackets)
        invariant esc == o.after.esc && next == |o.after.pending|
        invariant Fits(b[..next], o.after.pending)
        invariant FitsAll(packets, o.packets) && diagnostics == o.invalid
      {
        FeedSnoc(s, chunk, i, ignoreEmptyPackets);
        ghost var step := Step(o.after, chunk[i], ignoreEmptyPackets);
        var yielded, reported;
        next, yielded, reported := Absorb(b, next, chunk[i], o.after);
        FitsAllAppend(packets, o.packets, yielded, step.packets);
        packets := packets + yielded;
        diagnostics := diagnostics + reported;
        o := Then(o, step);
      }
      assert chunk[..|chunk|] == chunk;
    }

    /** decode: feeds one chunk, returning the packets it completes in yield
        order and the invalid escape codes it reports. */
    method Decode(chunk: seq<byte>) returns (packets: seq<seq<byte>>, diagnostics: seq<byte>)
      requires Valid()
      modifies this, carry
      ensures Valid()
      ensures maxCarryOversize == old(maxCarryOversize)
      ensures ignoreEmptyPackets == old(ignoreEmptyPackets)
      ensures var o := Feed(old(Model()), chunk, ignoreEmptyPackets);
              Model() == o.after && FitsAll(packets, o.packets) && diagnostics == o.invalid
      ensures var reused := old(carrySize) + |chunk| <= old(carry.Length);
              var capacity := if reused then old(carry.Length) else old(carrySize) + |chunk| + 10;
              if capacity < carrySize - maxCarryOversize then
                carry.Length == capacity && (if reused then carry == old(carry) else fresh(carry))
              else if carrySize > 0 then
                fresh(carry) && carry.Length == carrySize
              else
                carry == old(carry)
      ensures maxCarryOversize >= 0 ==>
              if carrySize > 0 then fresh(carry) && carry.Length == carrySize
              else carry == old(carry)
    {
      var b := Reserve(|chunk|);
      ghost var o := Feed(Model(), chunk, ignoreEmptyPackets);
      var bi;
      bi, packets, diagnostics := Scan(b, carrySize, chunk, Model());
      FeedGrowth(old(Model()), chunk, ignoreEmptyPackets);
      Keep(b, bi, o.after.pending);
    }
  }
}
