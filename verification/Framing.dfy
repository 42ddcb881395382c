/** The byte stream of frames that a connection writes, and a reference parser for it. */
module Framing {
  import opened Bytes
  import opened Messages

  /** The eight header bytes: id, three padding bytes, little-endian size. */
  function HeaderBytes(m: Msg): (s: seq<byte>)
    ensures |s| == 8
  {
    [m.id, 0, 0, 0] + ToBytes(m.size, 4)
  }

  function HeaderSize(header: seq<byte>): (size: uint32)
    requires |header| == 8
  {
    var n := FromBytes(header[4..8]);
    assert n < Pow256(4) == 0x1_0000_0000;
    n
  }

  lemma HeaderRoundTrip(m: Msg)
    ensures HeaderBytes(m)[0] == m.id && HeaderSize(HeaderBytes(m)) == m.size
  {
    assert Pow256(4) == 0x1_0000_0000;
    assert HeaderBytes(m)[4..8] == ToBytes(m.size, 4);
    FromToBytes(m.size, 4);
  }

  /** The header on the wire, byte by byte. */
  lemma HeaderImage(m: Msg)
    ensures HeaderBytes(m) ==
            [m.id, 0, 0, 0, m.size % 256, m.size / 256 % 256, m.size / 65536 % 256, m.size / 16777216 % 256]
  {
    assert Pow256(1) == 256 && Pow256(2) == 65536 && Pow256(3) == 16777216;
    LittleEndian(m.size, 4, 0);
    LittleEndian(m.size, 4, 1);
    LittleEndian(m.size, 4, 2);
    LittleEndian(m.size, 4, 3);
  }

  /** What the writer chain puts on the wire for one message. */
  function Frame(m: Msg): (s: seq<byte>)
    ensures |s| == 8 + |m.body|
  {
    HeaderBytes(m) + m.body
  }

  function Frames(ms: seq<Msg>): (s: seq<byte>) {
    if ms == [] then [] else Frame(ms[0]) + Frames(ms[1..])
  }

  lemma {:induction false} FramesConcat(a: seq<Msg>, b: seq<Msg>)
    ensures Frames(a + b) == Frames(a) + Frames(b)
  {
    if a == [] {
      assert a + b == b;
    } else {
      assert (a + b)[1..] == a[1..] + b;
      FramesConcat(a[1..], b);
    }
  }

  /** The message as the application may rely on it: id, size and the first size bytes of the body. */
  datatype View = View(id: byte, size: uint32, payload: seq<byte>) | Truncated

  function ViewOf(m: Msg): View {
    if m.size <= |m.body| then View(m.id, m.size, m.body[..m.size]) else Truncated
  }

  function Views(ms: seq<Msg>): (vs: seq<View>)
    ensures |vs| == |ms|
  {
    seq(|ms|, k requires 0 <= k < |ms| => ViewOf(ms[k]))
  }

  predicate AllWellFramed(ms: seq<Msg>) {
    forall k :: 0 <= k < |ms| ==> WellFramed(ms[k])
  }

  /** The body buffer after receiving these messages: a message without body leaves the old one there. */
  function StaleBody(stale: seq<byte>, ms: seq<Msg>): seq<byte>
    decreases |ms|
  {
    if ms == [] then stale
    else StaleBody(if ms[0].size > 0 then ms[0].body else stale, ms[1..])
  }

  /** Exactly what a receiver enqueues for these messages, left-over bodies included. */
  function Received(stale: seq<byte>, ms: seq<Msg>): (r: seq<Msg>)
    ensures |r| == |ms|
    decreases |ms|
  {
    if ms == [] then []
    else
      var body := if ms[0].size > 0 then ms[0].body else stale;
      [Msg(ms[0].id, ms[0].size, body)] + Received(body, ms[1..])
  }

  lemma {:induction false} ReceivedConcat(stale: seq<byte>, a: seq<Msg>, b: seq<Msg>)
    ensures Received(stale, a + b) == Received(stale, a) + Received(StaleBody(stale, a), b)
    ensures StaleBody(stale, a + b) == StaleBody(StaleBody(stale, a), b)
    decreases |a|
  {
    if a == [] {
      assert a + b == b;
    } else {
      assert (a + b)[1..] == a[1..] + b;
      ReceivedConcat(if a[0].size > 0 then a[0].body else stale, a[1..], b);
    }
  }

  lemma {:induction false} ReceivedViews(stale: seq<byte>, ms: seq<Msg>)
    requires AllWellFramed(ms)
    ensures Views(Received(stale, ms)) == Views(ms)
    decreases |ms|
  {
    if ms != [] {
      var body := if ms[0].size > 0 then ms[0].body else stale;
      ReceivedViews(body, ms[1..]);
      var r := Received(stale, ms);
      forall k | 0 <= k < |ms| ensures Views(r)[k] == Views(ms)[k] {
        if k > 0 {
          assert r[k] == Received(body, ms[1..])[k - 1];
          assert Views(r)[k] == Views(Received(body, ms[1..]))[k - 1];
          assert Views(ms)[k] == Views(ms[1..])[k - 1];
        }
      }
    }
  }

  predicate AllBodies(ms: seq<Msg>) {
    forall k :: 0 <= k < |ms| ==> |ms[k].body| > 0
  }

  /** No message without a body comes after one with a body. */
  predicate BodilessFirst(ms: seq<Msg>) {
    forall i :: 0 <= i < |ms| && |ms[i].body| > 0 ==> AllBodies(ms[i..])
  }

  /** No message picks up a left-over body. */
  predicate NoStale(stale: seq<byte>, ms: seq<Msg>)
    decreases |ms|
  {
    ms == [] ||
    if |ms[0].body| > 0 then NoStale(ms[0].body, ms[1..]) else stale == [] && NoStale(stale, ms[1..])
  }

  lemma {:induction false} ReceivedNoStale(stale: seq<byte>, ms: seq<Msg>)
    requires AllWellFramed(ms)
    ensures Received(stale, ms) == ms <==> NoStale(stale, ms)
    decreases |ms|
  {
    if ms != [] {
      var body := if ms[0].size > 0 then ms[0].body else stale;
      ReceivedNoStale(body, ms[1..]);
      var r := Received(stale, ms);
      assert r[1..] == Received(body, ms[1..]);
      assert r == ms <==> r[0] == ms[0] && r[1..] == ms[1..] by {
        assert r == [r[0]] + r[1..] && ms == [ms[0]] + ms[1..];
      }
    }
  }

  lemma {:induction false} NoStaleIff(stale: seq<byte>, ms: seq<Msg>)
    ensures NoStale(stale, ms) <==> BodilessFirst(ms) && (stale == [] || AllBodies(ms))
    decreases |ms|
  {
    if ms != [] {
      var tail := ms[1..];
      NoStaleIff(if |ms[0].body| > 0 then ms[0].body else stale, tail);
      assert AllBodies(ms) <==> |ms[0].body| > 0 && AllBodies(tail) by {
        assert forall k :: 0 < k < |ms| ==> ms[k] == tail[k - 1];
        assert forall k :: 0 <= k < |tail| ==> tail[k] == ms[k + 1];
      }
      BodilessFirstTail(ms);
      if AllBodies(tail) {
        forall i | 0 <= i < |tail| ensures AllBodies(tail[i..]) {}
      }
    }
  }

  lemma BodilessFirstTail(ms: seq<Msg>)
    requires ms != []
    ensures BodilessFirst(ms) <==> BodilessFirst(ms[1..]) && (|ms[0].body| > 0 ==> AllBodies(ms))
  {
    var tail := ms[1..];
    forall i | 0 <= i < |tail| ensures tail[i] == ms[i + 1] && tail[i..] == ms[i + 1..] {}
    forall i | 0 < i < |ms| ensures ms[i] == tail[i - 1] && ms[i..] == tail[i - 1..] {}
    assert ms[0..] == ms;
  }

  /** The receiver enqueues the very messages sent exactly when no body-less message follows one with a body. */
  lemma ReceivedExactIff(ms: seq<Msg>)
    requires AllWellFramed(ms)
    ensures Received([], ms) == ms <==> BodilessFirst(ms)
  {
    ReceivedNoStale([], ms);
    NoStaleIff([], ms);
  }

  /** Reference parser: the complete frames of s as a receiver reports them, and the bytes left over. */
  datatype Parsed = Parsed(ms: seq<Msg>, stale: seq<byte>, rest: seq<byte>)

  function Parse(stale: seq<byte>, s: seq<byte>): Parsed
    decreases |s|
  {
    if |s| < 8 || |s| < 8 + HeaderSize(s[..8]) then Parsed([], stale, s)
    else
      var size := HeaderSize(s[..8]);
      var body := if size > 0 then s[8..8 + size] else stale;
      var p := Parse(body, s[8 + size..]);
      Parsed([Msg(s[0], size, body)] + p.ms, p.stale, p.rest)
  }

  /** Bytes that hold exactly one frame. */
  predicate OneFrame(f: seq<byte>) {
    |f| >= 8 && |f| == 8 + HeaderSize(f[..8])
  }

  function FrameMsg(stale: seq<byte>, f: seq<byte>): Msg
    requires OneFrame(f)
  {
    Msg(f[0], HeaderSize(f[..8]), if |f| > 8 then f[8..] else stale)
  }

  /** One frame in front is one message more. */
  lemma ParseFrame(stale: seq<byte>, f: seq<byte>, rest: seq<byte>)
    requires OneFrame(f)
    ensures var m := FrameMsg(stale, f);
            var p := Parse(m.body, rest);
            Parse(stale, f + rest) == Parsed([m] + p.ms, p.stale, p.rest)
  {
    hide HeaderSize;
    var s, size := f + rest, HeaderSize(f[..8]);
    assert s[..8] == f[..8];
    assert s[8..8 + size] == f[8..] && s[8 + size..] == rest;
  }

  lemma StartsWithFrame(stale: seq<byte>, raw: seq<byte>)
    requires Parse(stale, raw).rest == [] && raw != []
    ensures |raw| >= 8 && |raw| >= 8 + HeaderSize(raw[..8])
  {
    hide HeaderSize;
  }

  predicate Appends(stale: seq<byte>, raw: seq<byte>, f: seq<byte>)
    requires OneFrame(f)
  {
    var p := Parse(stale, raw);
    var m := FrameMsg(p.stale, f);
    Parse(stale, raw + f) == Parsed(p.ms + [m], m.body, [])
  }

  lemma AppendsNone(stale: seq<byte>, f: seq<byte>)
    requires OneFrame(f)
    ensures Appends(stale, [], f)
  {
    hide HeaderSize, FrameMsg;
    ParseFrame(stale, f, []);
    assert f + [] == f && [] + f == f;
  }

  lemma AppendsStep(stale: seq<byte>, first: seq<byte>, more: seq<byte>, f: seq<byte>)
    requires OneFrame(first) && OneFrame(f) && Appends(FrameMsg(stale, first).body, more, f)
    ensures Appends(stale, first + more, f)
  {
    hide HeaderSize, Parse, FrameMsg, OneFrame;
    ParseFrame(stale, first, more);
    ParseFrame(stale, first, more + f);
    assert (first + more) + f == first + (more + f);
  }

  lemma {:induction false} ParseAppend(stale: seq<byte>, raw: seq<byte>, f: seq<byte>)
    requires Parse(stale, raw).rest == [] && OneFrame(f)
    ensures Appends(stale, raw, f)
    decreases |raw|
  {
    hide HeaderSize, FrameMsg, Appends;
    if raw == [] {
      AppendsNone(stale, f);
    } else {
      StartsWithFrame(stale, raw);
      var first := raw[..8 + HeaderSize(raw[..8])];
      var more := raw[|first|..];
      assert first[..8] == raw[..8];
      assert raw == first + more;
      ParseFrame(stale, first, more);
      ParseAppend(FrameMsg(stale, first).body, more, f);
      AppendsStep(stale, first, more, f);
    }
  }

  /** Bytes of a frame stream that hold a whole first frame. */
  lemma FirstFrame(raw: seq<byte>, ms: seq<Msg>)
    requires AllWellFramed(ms)
    requires raw <= Frames(ms)
    requires |raw| >= 8 && |raw| >= 8 + HeaderSize(raw[..8])
    ensures ms != [] && HeaderSize(raw[..8]) == ms[0].size && raw[0] == ms[0].id
    ensures raw[8..8 + ms[0].size] == ms[0].body
    ensures raw[8 + ms[0].size..] <= Frames(ms[1..])
    ensures raw == Frame(ms[0]) + raw[8 + ms[0].size..]
  {
    var m := ms[0];
    HeaderRoundTrip(m);
    assert raw[..8] == Frames(ms)[..8] == HeaderBytes(m);
    assert raw[0] == raw[..8][0];
    assert raw[8..8 + m.size] == Frames(ms)[8..8 + m.size] == m.body;
    assert Frames(ms)[8 + m.size..] == Frames(ms[1..]);
  }

  /** The parser reads a frame stream back as what a receiver enqueues, with nothing left over. */
  lemma {:induction false} ParseFrames(stale: seq<byte>, ms: seq<Msg>)
    requires AllWellFramed(ms)
    ensures Parse(stale, Frames(ms)) == Parsed(Received(stale, ms), StaleBody(stale, ms), [])
    decreases |ms|
  {
    if ms != [] {
      var m, s := ms[0], Frames(ms);
      HeaderRoundTrip(m);
      assert s[..8] == HeaderBytes(m) && s[0] == s[..8][0];
      assert s[8..8 + m.size] == m.body && s[8 + m.size..] == Frames(ms[1..]);
      ParseFrames(if m.size > 0 then m.body else stale, ms[1..]);
    }
  }

  /** A prefix of a frame stream that parses without remainder ends at a frame boundary. */
  lemma {:induction false} WholeFrames(stale: seq<byte>, raw: seq<byte>, ms: seq<Msg>)
    requires AllWellFramed(ms)
    requires raw <= Frames(ms)
    requires Parse(stale, raw).rest == []
    ensures var k := |Parse(stale, raw).ms|;
            k <= |ms| && raw == Frames(ms[..k])
    decreases |raw|
  {
    hide HeaderSize, HeaderBytes;
    if raw == [] {
      assert ms[..0] == [];
    } else {
      var m, tail := ms[0], ms[1..];
      FirstFrame(raw, ms);
      var body := if m.size > 0 then m.body else stale;
      var more := raw[8 + m.size..];
      WholeFrames(body, more, tail);
      var p := Parse(body, more);
      assert |Parse(stale, raw).ms| == 1 + |p.ms|;
      assert ms[..|p.ms| + 1][1..] == tail[..|p.ms|];
    }
  }

  /** Such a prefix holds exactly the messages a receiver enqueues for its frames. */
  lemma UniqueParse(stale: seq<byte>, raw: seq<byte>, ms: seq<Msg>)
    requires AllWellFramed(ms)
    requires raw <= Frames(ms)
    requires Parse(stale, raw).rest == []
    ensures var k := |Parse(stale, raw).ms|;
            && k <= |ms|
            && raw == Frames(ms[..k])
            && Parse(stale, raw) == Parsed(Received(stale, ms[..k]), StaleBody(stale, ms[..k]), [])
  {
    hide Frames, Parse, Received, StaleBody;
    WholeFrames(stale, raw, ms);
    var taken := ms[..|Parse(stale, raw).ms|];
    assert AllWellFramed(taken);
    ParseFrames(stale, taken);
  }

  /** A message's own frame is read back as that message, with nothing left over, exactly when its header
      announces its body; otherwise the reader loses the frame boundary or waits for bytes that never come. */
  lemma FrameExactIff(m: Msg)
    ensures Parse([], Frame(m)) == Parsed([m], m.body, []) <==> WellFramed(m)
  {
    HeaderRoundTrip(m);
    var f := Frame(m);
    assert f[..8] == HeaderBytes(m);
    assert f[0] == f[..8][0];
    if |f| >= 8 + m.size {
      var body := if m.size > 0 then f[8..8 + m.size] else [];
      var p := Parse(body, f[8 + m.size..]);
      assert Parse([], f).ms == [Msg(m.id, m.size, body)] + p.ms;
      if WellFramed(m) {
        assert f[8..] == m.body && f[8 + m.size..] == [];
        assert body == m.body;
      } else {
        assert Msg(m.id, m.size, body) != m;
      }
    }
  }
}
