/// The total byte-stuffing encoder: an empty-packet shortcut, a fast path
/// for packets without END or ESC, and a general path that escapes into a
/// buffer sized for the worst case.
module Encoding {
  import opened Slip

  /** The wire form of one packet byte: END and ESC become two-byte escape
      sequences, every other value (ESC_END and ESC_ESC included) is sent as is. */
  function Escape(x: byte): (r: seq<byte>)
    ensures 1 <= |r| <= 2
  {
    if x == END then [ESC, ESC_END]
    else if x == ESC then [ESC, ESC_ESC]
    else [x]
  }

  /** The escaped body of a packet: Escape applied to each byte, in order. */
  function Stuff(p: seq<byte>): seq<byte>
  {
    if p == [] then [] else Escape(p[0]) + Stuff(p[1..])
  }

  /** The frame sent for packet `p`: a leading END when `terminateStart` is
      set and the packet is not empty, the escaped body, one trailing END.
      An empty packet is a single END whatever `terminateStart` says. */
  function Frame(p: seq<byte>, terminateStart: bool): (r: seq<byte>)
    ensures r == [END] <==> p == []
    ensures |r| > 0 && r[|r| - 1] == END
  {
    if p == [] then [END]
    else (if terminateStart then [END] else []) + Stuff(p) + [END]
  }

  /** Escaping at most doubles a packet. */
  lemma {:induction false} StuffLength(p: seq<byte>)
    ensures |p| <= |Stuff(p)| <= 2 * |p|
  {
    if p != [] {
      StuffLength(p[1..]);
    }
  }

  /** The frame is at most the worst-case buffer of the general path,
      2 * |p| bytes of body plus one END on each side. */
  lemma FrameLength(p: seq<byte>, terminateStart: bool)
    ensures |Frame(p, terminateStart)| <= 2 * |p| + (if terminateStart then 2 else 1)
  {
    StuffLength(p);
  }

  /** The escaped body never contains END, so END can delimit frames. */
  lemma {:induction false} StuffHasNoEnd(p: seq<byte>)
    ensures END !in Stuff(p)
  {
    if p != [] {
      StuffHasNoEnd(p[1..]);
    }
  }

  lemma {:induction false} StuffAppend(p: seq<byte>, q: seq<byte>)
    ensures Stuff(p + q) == Stuff(p) + Stuff(q)
  {
    if p == [] {
      assert p + q == q;
    } else {
      assert (p + q)[0] == p[0];
      assert (p + q)[1..] == p[1..] + q;
      StuffAppend(p[1..], q);
    }
  }

  /** A packet with neither END nor ESC is its own escaped body: the fast
      path's verbatim copy agrees with the general path. */
  lemma {:induction false} CleanStuff(p: seq<byte>)
    requires END !in p && ESC !in p
    ensures Stuff(p) == p
  {
    if p != [] {
      assert p[0] in p;
      assert forall x :: x in p[1..] ==> x in p;
      CleanStuff(p[1..]);
    }
  }

  /** Escaping rewrites exactly END and ESC: the body equals the packet
      iff the packet holds neither of them. */
  lemma {:induction false} StuffIsIdentityIff(p: seq<byte>)
    ensures Stuff(p) == p <==> END !in p && ESC !in p
  {
    if END !in p && ESC !in p {
      CleanStuff(p);
    } else if END in p {
      StuffHasNoEnd(p);
    } else {
      StuffKeepsLength(p);
    }
  }

  /** An ESC in the packet makes its escaped body strictly longer. */
  lemma {:induction false} StuffKeepsLength(p: seq<byte>)
    requires ESC in p
    ensures |Stuff(p)| > |p|
  {
    if p[0] == ESC {
      StuffLength(p[1..]);
    } else {
      assert p[1..] != [] && ESC in p[1..] by {
        var k :| 0 <= k < |p| && p[k] == ESC;
        assert p[1..][k - 1] == ESC;
      }
      StuffKeepsLength(p[1..]);
    }
  }

  /** In a frame END occurs only as the trailing delimiter and, when
      `terminateStart` is set and the packet is not empty, as the first byte. */
  lemma EndOnlyAtBoundaries(p: seq<byte>, terminateStart: bool, k: nat)
    requires k < |Frame(p, terminateStart)|
    ensures Frame(p, terminateStart)[k] == END <==>
            k == |Frame(p, terminateStart)| - 1 || (terminateStart && p != [] && k == 0)
  {
    var r := Frame(p, terminateStart);
    if p != [] {
      StuffHasNoEnd(p);
      var lead := if terminateStart then 1 else 0;
      if lead <= k < |r| - 1 {
        assert r[k] == Stuff(p)[k - lead];
        assert Stuff(p)[k - lead] in Stuff(p);
      }
    }
  }

  /** The literal cases of the encoder's fast path and empty packet. */
  lemma FrameExamples()
    ensures Frame([1, 2, 3], false) == [1, 2, 3, END]
    ensures Frame([1, 2, 3], true) == [END, 1, 2, 3, END]
    ensures Frame([], false) == [END] && Frame([], true) == [END]
    ensures Frame([1, ESC_END], false) == [1, ESC_END, END]
  {
    CleanStuff([1, 2, 3]);
    CleanStuff([1, ESC_END]);
  }

  /** The literal cases of the encoder's general path. */
  lemma FrameEscapeExamples()
    ensures Frame([END], false) == [ESC, ESC_END, END]
    ensures Frame([ESC], false) == [ESC, ESC_ESC, END]
    ensures Frame([1, ESC, 5, END], false) == [1, ESC, ESC_ESC, 5, ESC, ESC_END, END]
  {
    var one, esc, five, end: seq<byte> := [1], [ESC], [5], [END];
    assert Stuff(end) == [ESC, ESC_END] + Stuff([]);
    assert Stuff(esc) == [ESC, ESC_ESC] + Stuff([]);
    CleanStuff(one);
    CleanStuff(five);
    StuffAppend(one, esc);
    StuffAppend(five, end);
    StuffAppend(one + esc, five + end);
    assert [1, ESC, 5, END] == (one + esc) + (five + end);
  }

  lemma StuffGrows(lead: seq<byte>, p: seq<byte>, i: nat, written: seq<byte>)
    requires i < |p| && written == lead + Stuff(p[..i])
    ensures written + Escape(p[i]) == lead + Stuff(p[..i + 1])
  {
    assert p[..i + 1] == p[..i] + [p[i]];
    StuffAppend(p[..i], [p[i]]);
    assert Stuff([p[i]]) == Escape(p[i]);
  }

  /** One turn of the general path's loop: writes the escape of `x` into
      `buf` at `offset`, advancing the offset past what it wrote. */
  method WriteEscaped(buf: array<byte>, offset: nat, x: byte) returns (next: nat)
    requires offset + |Escape(x)| <= buf.Length
    modifies buf
    ensures next == offset + |Escape(x)|
    ensures buf[..next] == old(buf[..offset]) + Escape(x)
    ensures buf[next..] == old(buf[next..])
  {
    next := offset;
    if x == END {
      buf[next] := ESC;
      next := next + 1;
      buf[next] := ESC_END;
      next := next + 1;
    } else if x == ESC {
      buf[next] := ESC;
      next := next + 1;
      buf[next] := ESC_ESC;
      next := next + 1;
    } else {
      buf[next] := x;
      next := next + 1;
    }
    assert buf[..next] == old(buf[..offset]) + Escape(x);
  }

  /** The fast path: a copy of the packet between the optional leading END
      and the trailing END, with no per-byte escaping. */
  method CopyFrame(chunk: seq<byte>, terminateStart: bool) returns (r: seq<byte>)
    ensures r == (if terminateStart then [END] else []) + chunk + [END]
  {
    if terminateStart {
      var res := new byte[|chunk| + 2];
      res[0] := END;
      forall k | 0 <= k < |chunk| {
        res[k + 1] := chunk[k];
      }
      res[|chunk| + 1] := END;
      assert res[..] == [END] + chunk + [END];
      return res[..];
    } else {
      var res := new byte[|chunk| + 1];
      forall k | 0 <= k < |chunk| {
        res[k] := chunk[k];
      }
      res[|chunk|] := END;
      assert res[..] == chunk + [END];
      return res[..];
    }
  }

  /** The general path: escapes into a buffer sized for the worst case and
      returns the written prefix. */
  method EscapeFrame(chunk: seq<byte>, terminateStart: bool) returns (r: seq<byte>)
    ensures r == (if terminateStart then [END] else []) + Stuff(chunk) + [END]
    ensures |r| <= 2 * |chunk| + (if terminateStart then 2 else 1)
  {
    var result := new byte[|chunk| * 2 + (if terminateStart then 2 else 1)];
    var offset := 0;
    if terminateStart {
      result[offset] := END;
      offset := offset + 1;
    }
    ghost var lead := result[..offset];
    assert |lead| <= 1;
    for i := 0 to |chunk|
      invariant |lead| <= offset <= |lead| + 2 * i
      invariant |lead| + 2 * |chunk| < result.Length
      invariant result[..offset] == lead + Stuff(chunk[..i])
    {
      StuffGrows(lead, chunk, i, result[..offset]);
      offset := WriteEscaped(result, offset, chunk[i]);
    }
    assert chunk[..|chunk|] == chunk;
    ghost var body := result[..offset];
    result[offset] := END;
    offset := offset + 1;
    assert result[..offset] == body + [END];
    return result[..offset];
  }

  /** encodeSLIP: the empty-packet shortcut, then the fast path when the
      packet holds neither END nor ESC, else the general path. */
  method EncodeSlip(chunk: seq<byte>, terminateStart: bool) returns (r: seq<byte>)
    ensures r == Frame(chunk, terminateStart)
    ensures |r| <= 2 * |chunk| + (if terminateStart then 2 else 1)
  {
    FrameLength(chunk, terminateStart);
    if |chunk| == 0 {
      return [END];
    }
    if END !in chunk && ESC !in chunk {
      CleanStuff(chunk);
      r := CopyFrame(chunk, terminateStart);
    } else {
      r := EscapeFrame(chunk, terminateStart);
    }
  }
}
