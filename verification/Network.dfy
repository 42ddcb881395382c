/** A server connection and a client's connected by two byte streams, which deliver bytes in order and in chunks of any
    size. Every message sent announces its body's length; when the applications send is up to them. */
module Network {
  import opened Bytes
  import opened Vectors
  import opened Options
  import opened Params
  import opened Messages
  import opened Scramble
  import opened Framing
  import opened Endpoints
  import opened OpenSystem

  datatype Net = Net(server: Endpoint, client: Endpoint, down: seq<byte>, up: seq<byte>)

  datatype NetAction = ByServer(act: Action) | ByClient(act: Action)

  function NetInit(challenge: uint64, pending: seq<Msg>): Net {
    Net(ServerInit(challenge, pending), ClientInit(), [], [])
  }

  /** act can happen at e, whose incoming stream holds the bytes arriving. */
  predicate PartyEnabled(e: Endpoint, arriving: seq<byte>, act: Action) {
    && Enabled(e, act)
    && (act.Post? ==> WellFramed(act.msg))
    && (act.Receive? ==> act.chunk <= arriving)
  }

  predicate NetEnabled(n: Net, a: NetAction) {
    match a
    case ByServer(act) => PartyEnabled(n.server, n.up, act)
    case ByClient(act) => PartyEnabled(n.client, n.down, act)
  }

  /** The bytes that a step put on the wire. */
  function Sent(before: Endpoint, after: Endpoint): seq<byte> {
    if |before.out.emitted| <= |after.out.emitted| then after.out.emitted[|before.out.emitted|..] else []
  }

  function Remaining(arriving: seq<byte>, act: Action): seq<byte> {
    if act.Receive? && |act.chunk| <= |arriving| then arriving[|act.chunk|..] else arriving
  }

  function NetNext(n: Net, a: NetAction, greeting: seq<Msg>): Net
    requires NetEnabled(n, a)
  {
    match a
    case ByServer(act) =>
      var e := Next(n.server, act, greeting);
      n.(server := e, down := n.down + Sent(n.server, e), up := Remaining(n.up, act))
    case ByClient(act) =>
      var e := Next(n.client, act, []);
      n.(client := e, up := n.up + Sent(n.client, e), down := Remaining(n.down, act))
  }

  /** The stream from one side to the other holds exactly the bytes written and not yet read. */
  predicate Channel(from: Endpoint, to: Endpoint, stream: seq<byte>) {
    from.out.emitted == to.inp.consumed + stream
  }

  /** What holds in every reachable state: the server's bytes are in order, and the client's are, or a frame of its own
      has got in front of its answer. */
  predicate NetState(n: Net) {
    && EndpointState(n.server) && n.server.server && AllWellFramed(n.server.out.posted)
    && FreeState(n.client) && !n.client.server && AllWellFramed(n.client.out.posted)
    && (WriterStream(n.client.out, n.client.open) || Ahead(n.client.out, n.client.open))
    && Channel(n.server, n.client, n.down)
    && Channel(n.client, n.server, n.up)
  }

  /** The client's bytes are in order, too. */
  predicate InOrder(n: Net) {
    NetState(n) && WriterStream(n.client.out, n.client.open)
  }

  /** The step does not run a posted send of a client that has not issued its answer. */
  predicate Patient(n: Net, a: NetAction) {
    a.ByClient? && a.act.RunPosted? ==> n.client.out.issued
  }

  // What every step of the network keeps.

  /** A step adds to the bytes emitted and to those consumed, and reads only what has arrived. */
  lemma StepBytes(e: Endpoint, act: Action, greeting: seq<Msg>)
    requires Enabled(e, act)
    ensures var f := Next(e, act, greeting);
            && f.out.emitted == e.out.emitted + Sent(e, f)
            && f.inp.consumed == e.inp.consumed + (if act.Receive? then act.chunk else [])
  {
    hide HeaderBytes, HeaderSize, WordOf, WordBytes, ScrambleWord, Resized;
  }

  /** A step posts at most one message of its own or the greeting. */
  lemma StepPosts(e: Endpoint, act: Action, greeting: seq<Msg>)
    requires Enabled(e, act)
    ensures var f := Next(e, act, greeting);
            f.out.posted == e.out.posted + Posted(e, act, greeting)
  {
    hide HeaderBytes, HeaderSize, WordBytes, ScrambleWord, Resized, HeaderRead, BodyRead;
  }

  function Posted(e: Endpoint, act: Action, greeting: seq<Msg>): seq<Msg>
    requires Enabled(e, act)
  {
    match act
    case Post(m) => [m]
    case ReadDone =>
      if e.server && e.inp.reading == ReadingValidation && WordOf(e.inp.got) == e.handshakeCheck then greeting else []
    case _ => []
  }

  lemma PartyStep(e: Endpoint, other: Endpoint, arriving: seq<byte>, leaving: seq<byte>, act: Action,
                  greeting: seq<Msg>)
    requires FreeState(e) && AllWellFramed(e.out.posted) && AllWellFramed(greeting)
    requires PartyEnabled(e, arriving, act)
    requires Channel(e, other, leaving) && Channel(other, e, arriving)
    ensures var f := Next(e, act, greeting);
            && FreeState(f) && f.server == e.server && AllWellFramed(f.out.posted)
            && Channel(f, other, leaving + Sent(e, f))
            && Channel(other, f, Remaining(arriving, act))
  {
    hide FreeState, Next, Enabled, Sent, Posted;
    StepKeepsFree(e, act, greeting);
    StepKeepsParty(e, act, greeting);
    StepBytes(e, act, greeting);
    StepPosts(e, act, greeting);
    PostedWellFramed(e, act, greeting);
    var f := Next(e, act, greeting);
    assert f.out.emitted == (other.inp.consumed + leaving) + Sent(e, f) == other.inp.consumed + (leaving + Sent(e, f));
    if act.Receive? {
      assert arriving == act.chunk + arriving[|act.chunk|..];
    }
  }

  lemma PostedWellFramed(e: Endpoint, act: Action, greeting: seq<Msg>)
    requires Enabled(e, act) && AllWellFramed(greeting) && (act.Post? ==> WellFramed(act.msg))
    ensures AllWellFramed(Posted(e, act, greeting))
  {
    hide WordOf;
  }

  lemma NetInitState(challenge: uint64, pending: seq<Msg>)
    requires AllWellFramed(pending)
    ensures NetState(NetInit(challenge, pending)) && InOrder(NetInit(challenge, pending))
  {
    hide FreeState, WriterStream, Ahead;
    InitState(challenge, pending);
  }

  /** How the order of the client's bytes goes on. */
  lemma ClientStep(e: Endpoint, act: Action)
    requires FreeState(e) && !e.server && Enabled(e, act)
    requires WriterStream(e.out, e.open) || Ahead(e.out, e.open)
    ensures var f := Next(e, act, []);
            && (Ahead(e.out, e.open) || (act.RunPosted? && !e.out.issued) ==> Ahead(f.out, f.open))
            && (WriterStream(e.out, e.open) && (act.RunPosted? ==> e.out.issued) ==> WriterStream(f.out, f.open))
  {
    hide FreeState, WriterStream, Ahead, RunPostedOf;
    if Ahead(e.out, e.open) {
      StaysAhead(e, act);
    } else if act.RunPosted? && !e.out.issued {
      GetsAhead(e.out, e.open);
    }
    if WriterStream(e.out, e.open) && (act.RunPosted? ==> e.out.issued) {
      StepKeepsState(e, act, []);
    }
  }

  lemma NetStepKeepsState(n: Net, a: NetAction, greeting: seq<Msg>)
    requires NetState(n) && NetEnabled(n, a) && AllWellFramed(greeting)
    ensures NetState(NetNext(n, a, greeting))
    ensures InOrder(n) && Patient(n, a) ==> InOrder(NetNext(n, a, greeting))
    ensures Ahead(n.client.out, n.client.open) || (InOrder(n) && !Patient(n, a)) ==>
              Ahead(NetNext(n, a, greeting).client.out, NetNext(n, a, greeting).client.open)
  {
    hide FreeState, WriterStream, Ahead, Next, Channel, Sent, Remaining, Enabled;
    match a
    case ByServer(act) =>
      Issued(n.server);
      StepKeepsState(n.server, act, greeting);
      PartyStep(n.server, n.client, n.up, n.down, act, greeting);
    case ByClient(act) =>
      ClientStep(n.client, act);
      PartyStep(n.client, n.server, n.down, n.up, act, []);
  }

  // Delivery.

  /** What the receiver has read is a prefix of the sender's script. */
  lemma ReadsScript(from: Endpoint, to: Endpoint, stream: seq<byte>)
    requires EndpointState(from) && FreeState(to) && Channel(from, to, stream)
    ensures to.inp.consumed <= Script(from.out)
    ensures to.inp.framed >= 8 ==>
              && to.inp.framed <= |to.inp.consumed| && from.out.issued
              && to.inp.consumed[..8] == WordBytes(from.out.word)
              && to.inp.consumed[8..] <= Frames(from.out.posted)
  {
    hide WriterChain, Frames, WordBytes, Taken, HandshakeState, HeaderSize;
    assert to.inp.consumed <= from.out.emitted <= Script(from.out);
    if to.inp.framed >= 8 {
      assert Script(from.out)[..8] == WordBytes(from.out.word);
      assert Script(from.out)[8..] == Frames(from.out.posted);
    }
  }

  /** The messages delivered to one side are those of a prefix of what the other side posted, in order, and the
      finished reads end exactly at a frame boundary. */
  lemma Delivery(from: Endpoint, to: Endpoint, stream: seq<byte>)
    requires EndpointState(from) && FreeState(to) && Channel(from, to, stream)
    requires AllWellFramed(from.out.posted)
    ensures var k := |to.inp.delivered|;
            && k <= |from.out.posted|
            && to.inp.delivered == Received([], from.out.posted[..k])
            && (to.inp.framed >= 8 ==>
                  && to.inp.framed <= |to.inp.consumed|
                  && to.inp.consumed[8..to.inp.framed] == Frames(from.out.posted[..k]))
  {
    hide WriterStream, Frames, Parse, HandshakeState, HeaderSize, Script;
    ReadsScript(from, to, stream);
    if to.inp.framed >= 8 {
      var raw := to.inp.consumed[8..to.inp.framed];
      assert raw <= to.inp.consumed[8..];
      UniqueParse([], raw, from.out.posted);
    } else {
      assert from.out.posted[..0] == [];
    }
  }

  /** As long as the client's bytes are in order the handshake succeeds on both sides. */
  lemma HandshakeSucceeds(n: Net)
    requires InOrder(n)
    ensures n.client.inp.framed >= 8 ==> n.client.handshakeIn == n.server.out.word
    ensures n.server.inp.framed >= 8 ==> n.server.validations == 1 && n.server.handshakeIn == n.server.handshakeCheck
    ensures n.server.inp.reading == ReadingValidation && |n.server.inp.got| == 8 ==>
              WordOf(n.server.inp.got) == n.server.handshakeCheck
  {
    hide WriterStream, ReaderState, WordOf, WordBytes, ScrambleWord, Script, FreeWriter, Ahead;
    WordRoundTrip(n.server.out.word);
    WordRoundTrip(n.client.out.word);
    if n.client.inp.framed >= 8 {
      ReadsScript(n.server, n.client, n.down);
    }
    var s := n.server.inp;
    if s.framed >= 8 {
      ReadsScript(n.client, n.server, n.up);
      AnsweredWord(n);
    }
    if s.reading == ReadingValidation && |s.got| == 8 {
      ValidationPending(n.server);
      PendingWord(n);
      AnsweredWord(n);
    }
  }

  /** Eight bytes waiting at the server are the client's answer. */
  lemma PendingWord(n: Net)
    requires InOrder(n) && n.server.inp.reading == ReadingValidation && |n.server.inp.got| == 8
    ensures n.client.out.issued && n.server.inp.got == WordBytes(n.client.out.word)
  {
    hide WriterChain, ReaderState, HandshakeState, WordOf, WordBytes, Frames, Ahead;
    ValidationPending(n.server);
    ReadsScript(n.client, n.server, n.up);
    assert n.server.inp.got == Script(n.client.out)[..8];
  }

  /** The answer a client has issued is the scrambled challenge. */
  lemma AnsweredWord(n: Net)
    requires NetState(n) && n.client.out.issued
    ensures n.client.inp.framed >= 8 && n.client.out.word == ScrambleWord(n.server.out.word)
  {
    hide WriterStream, Taken, HeaderSize, WordOf, WordBytes, ScrambleWord, Script, FreeWriter, Ahead;
    WordRoundTrip(n.server.out.word);
    ReadsScript(n.server, n.client, n.down);
    ClientIssued(n.client);
  }

  lemma ClientIssued(e: Endpoint)
    requires FreeState(e) && !e.server && e.out.issued
    ensures 8 <= e.inp.framed <= |e.inp.consumed| && e.handshakeIn == WordOf(e.inp.consumed[..8])
    ensures e.out.word == ScrambleWord(e.handshakeIn)
  {
    hide FreeWriter, Taken, HeaderSize, WordOf, ScrambleWord;
  }

  /** No header is the right answer to any challenge: its second byte is zero, that of an answer is not. */
  lemma HeaderIsNoAnswer(m: Msg, challenge: uint64)
    ensures WordOf(HeaderBytes(m)) != ScrambleWord(challenge)
  {
    ToFromBytes(HeaderBytes(m));
    assert HeaderBytes(m)[1] == 0;
    hide ScrambleWord, HeaderBytes;
    SecondByte(challenge);
  }

  /** A client ahead of its answer is refused: once the server has read eight bytes it closes, nothing delivered. */
  lemma AheadRefused(n: Net)
    requires NetState(n) && Ahead(n.client.out, n.client.open)
    ensures n.server.validations == 0 && n.server.inp.delivered == []
    ensures n.server.inp.framed >= 8 ==> !n.server.open
    ensures n.server.inp.framed >= 8 || n.server.inp.framed == 0
    ensures n.server.open ==> n.server.inp.reading == ReadingValidation && n.server.inp.consumed == n.server.inp.got
  {
    hide WriterStream, HeaderSize, WordOf, HeaderBytes, ScrambleWord, FreeWriter, Parse;
    var s, w := n.server, n.client.out;
    HeaderIsNoAnswer(w.posted[0], s.out.word);
    if s.inp.framed >= 8 {
      assert s.inp.consumed <= w.emitted;
      assert s.inp.consumed[..8] == w.emitted[..8];
      assert s.inp.consumed[8..8] == [];
      EmptyParse();
    }
  }

  lemma EmptyParse()
    ensures Parse([], []) == Parsed([], [], [])
  {
  }

  /** What the server has been handed, however early the client sent. */
  lemma ClientDelivery(n: Net)
    requires NetState(n)
    ensures var k := |n.server.inp.delivered|;
            && k <= |n.client.out.posted|
            && n.server.inp.delivered == Received([], n.client.out.posted[..k])
  {
    hide FreeState, WriterStream, Ahead, Received;
    if WriterStream(n.client.out, n.client.open) {
      Delivery(n.client, n.server, n.up);
    } else {
      AheadRefused(n);
      NothingReceived();
      assert n.client.out.posted[..0] == [];
    }
  }

  lemma NothingReceived()
    ensures Received([], []) == []
  {
  }

  // Runs of the network.

  predicate NetRun(n: Net, acts: seq<NetAction>, greeting: seq<Msg>)
    decreases |acts|
  {
    acts == [] || (NetEnabled(n, acts[0]) && NetRun(NetNext(n, acts[0], greeting), acts[1..], greeting))
  }

  function After(n: Net, acts: seq<NetAction>, greeting: seq<Msg>): Net
    requires NetRun(n, acts, greeting)
    decreases |acts|
  {
    if acts == [] then n else After(NetNext(n, acts[0], greeting), acts[1..], greeting)
  }

  lemma {:induction false} NetRunKeepsState(n: Net, acts: seq<NetAction>, greeting: seq<Msg>)
    requires NetState(n) && NetRun(n, acts, greeting) && AllWellFramed(greeting)
    ensures NetState(After(n, acts, greeting))
    decreases |acts|
  {
    hide NetState, NetNext, NetEnabled;
    if acts != [] {
      NetStepKeepsState(n, acts[0], greeting);
      NetRunKeepsState(NetNext(n, acts[0], greeting), acts[1..], greeting);
    }
  }

  /** No send posted by the client runs before its answer is issued. */
  predicate AnswerFirst(n: Net, acts: seq<NetAction>, greeting: seq<Msg>)
    requires NetRun(n, acts, greeting)
    decreases |acts|
  {
    acts == [] || (Patient(n, acts[0]) && AnswerFirst(NetNext(n, acts[0], greeting), acts[1..], greeting))
  }

  lemma {:induction false} RunStaysAhead(n: Net, acts: seq<NetAction>, greeting: seq<Msg>)
    requires NetState(n) && NetRun(n, acts, greeting) && AllWellFramed(greeting)
    requires Ahead(n.client.out, n.client.open)
    ensures var m := After(n, acts, greeting); NetState(m) && Ahead(m.client.out, m.client.open)
    decreases |acts|
  {
    hide NetState, NetNext, NetEnabled, Ahead;
    if acts != [] {
      NetStepKeepsState(n, acts[0], greeting);
      RunStaysAhead(NetNext(n, acts[0], greeting), acts[1..], greeting);
    }
  }

  lemma {:induction false} RunKeepsOrder(n: Net, acts: seq<NetAction>, greeting: seq<Msg>)
    requires InOrder(n) && NetRun(n, acts, greeting) && AllWellFramed(greeting)
    ensures var m := After(n, acts, greeting);
            && NetState(m)
            && (AnswerFirst(n, acts, greeting) ==> InOrder(m))
            && (!AnswerFirst(n, acts, greeting) ==> Ahead(m.client.out, m.client.open))
    decreases |acts|
  {
    hide NetState, NetNext, NetEnabled, Ahead, WriterStream, Patient;
    if acts != [] {
      NetStepKeepsState(n, acts[0], greeting);
      if Patient(n, acts[0]) {
        RunKeepsOrder(NetNext(n, acts[0], greeting), acts[1..], greeting);
      } else {
        RunStaysAhead(NetNext(n, acts[0], greeting), acts[1..], greeting);
      }
    }
  }

  /** The handshake over all runs: the server has validated its client exactly if it has read eight bytes and no send
      posted by the client ran before its answer was issued. */
  lemma ValidatedIff(challenge: uint64, pending: seq<Msg>, acts: seq<NetAction>, greeting: seq<Msg>)
    requires AllWellFramed(pending) && AllWellFramed(greeting)
    requires NetRun(NetInit(challenge, pending), acts, greeting)
    ensures var start := NetInit(challenge, pending);
            var s := After(start, acts, greeting).server;
            && (s.validations == 1 <==> s.inp.framed >= 8 && AnswerFirst(start, acts, greeting))
            && s.validations <= 1
  {
    hide NetInit, NetEnabled, NetNext, AnswerFirst, FreeState, WriterStream, Ahead;
    var start := NetInit(challenge, pending);
    NetInitState(challenge, pending);
    RunKeepsOrder(start, acts, greeting);
    var n := After(start, acts, greeting);
    if AnswerFirst(start, acts, greeting) {
      HandshakeSucceeds(n);
      Unvalidated(n.server);
    } else {
      AheadRefused(n);
    }
  }

  lemma Unvalidated(e: Endpoint)
    requires FreeState(e)
    ensures e.inp.framed >= 8 || (e.inp.framed == 0 && e.validations == 0)
  {
    hide FreeWriter, Taken, WordOf, ScrambleWord, HeaderSize;
  }

  lemma PrefixViews(ms: seq<Msg>, k: nat)
    requires AllWellFramed(ms) && k <= |ms|
    ensures Views(Received([], ms[..k])) <= Views(ms)
  {
    ReceivedViews([], ms[..k]);
    assert Views(ms[..k]) == Views(ms)[..k];
  }

  /** End-to-end delivery, in every reachable state of every run, whenever either side sends: what each side has
      been handed is, message by message, a prefix of what the other side posted. */
  lemma EndToEndDelivery(challenge: uint64, pending: seq<Msg>, acts: seq<NetAction>, greeting: seq<Msg>)
    requires AllWellFramed(pending) && AllWellFramed(greeting)
    requires NetRun(NetInit(challenge, pending), acts, greeting)
    ensures var n := After(NetInit(challenge, pending), acts, greeting);
            && Views(n.client.inp.delivered) <= Views(n.server.out.posted)
            && Views(n.server.inp.delivered) <= Views(n.client.out.posted)
  {
    hide FreeState, WriterStream, Ahead, ViewOf;
    NetInitState(challenge, pending);
    NetRunKeepsState(NetInit(challenge, pending), acts, greeting);
    var n := After(NetInit(challenge, pending), acts, greeting);
    Delivery(n.server, n.client, n.down);
    ClientDelivery(n);
    PrefixViews(n.server.out.posted, |n.client.inp.delivered|);
    PrefixViews(n.client.out.posted, |n.server.inp.delivered|);
  }

  // Draining: with no error and no new sends, everything posted arrives.

  /** A step that is neither a send by the application nor a failure. */
  predicate Quiet(act: Action) {
    act.RunPosted? || act.EmitValidation? || act.EmitFrame? || act.ValidationWritten? || act.FrameWritten?
    || act.Receive? || act.ReadDone?
  }

  predicate NetQuiet(a: NetAction) {
    Quiet(a.act)
  }

  // Work still to do, each byte counted once per hop: three before it is written, two in the stream, one when read.

  function PendingWork(ms: seq<Msg>): nat {
    if ms == [] then 0 else 3 * (8 + |ms[0].body|) + 3 + PendingWork(ms[1..])
  }

  function QueuedWork(ms: seq<Msg>): nat {
    if ms == [] then 0 else 3 * (8 + |ms[0].body|) + 2 + QueuedWork(ms[1..])
  }

  function FrontWork(w: Writer): nat {
    match w.frame
    case NoWrite => 0
    case WritingHeader(rest) => 3 * |rest| + (if w.outgoing == [] then 0 else 3 * |w.outgoing[0].body|) + 2
    case WritingBody(rest) => 3 * |rest| + 1
  }

  function WriterWork(w: Writer): nat {
    PendingWork(w.pending) + FrontWork(w) + (if w.outgoing == [] then 0 else QueuedWork(w.outgoing[1..]))
    + (if w.validation.Some? then 3 * |w.validation.value| + 1 else 0)
  }

  /** What the handshake will still add. */
  function Future(e: Endpoint, greeting: seq<Msg>): nat {
    if e.inp.framed >= 8 then 0 else if e.server then PendingWork(greeting) else 25
  }

  function PartyWork(e: Endpoint, greeting: seq<Msg>): nat {
    WriterWork(e.out) + |e.inp.got| + Future(e, greeting)
  }

  function Work(n: Net, greeting: seq<Msg>): nat {
    PartyWork(n.server, greeting) + PartyWork(n.client, greeting) + 2 * |n.down| + 2 * |n.up|
  }

  lemma {:induction false} PendingWorkConcat(a: seq<Msg>, b: seq<Msg>)
    ensures PendingWork(a + b) == PendingWork(a) + PendingWork(b)
  {
    if a == [] {
      assert a + b == b;
    } else {
      assert (a + b)[1..] == a[1..] + b;
      PendingWorkConcat(a[1..], b);
    }
  }

  lemma {:induction false} QueuedWorkConcat(a: seq<Msg>, b: seq<Msg>)
    ensures QueuedWork(a + b) == QueuedWork(a) + QueuedWork(b)
  {
    if a == [] {
      assert a + b == b;
    } else {
      assert (a + b)[1..] == a[1..] + b;
      QueuedWorkConcat(a[1..], b);
    }
  }

  lemma RunPostedWork(w: Writer)
    requires WriterChain(w) && w.pending != []
    ensures WriterWork(RunPostedOf(w)) < WriterWork(w)
  {
    var v, m := RunPostedOf(w), w.pending[0];
    assert PendingWork(w.pending) == 3 * (8 + |m.body|) + 3 + PendingWork(v.pending);
    if w.outgoing == [] {
      assert v.outgoing == [m] && v.outgoing[1..] == [];
    } else {
      assert v.outgoing[1..] == w.outgoing[1..] + [m];
      QueuedWorkConcat(w.outgoing[1..], [m]);
      assert [m][1..] == [] && QueuedWork([m]) == 3 * (8 + |m.body|) + 2;
    }
  }

  lemma FrameWrittenWork(w: Writer)
    requires WriterChain(w) && w.frame != NoWrite && w.frame.rest == []
    ensures WriterWork(FrameWrittenOf(w)) < WriterWork(w)
  {
    var tail := w.outgoing[1..];
    if tail != [] {
      assert QueuedWork(tail) == 3 * (8 + |tail[0].body|) + 2 + QueuedWork(tail[1..]);
    }
  }

  lemma RunPostedEmits(w: Writer)
    requires w.pending != []
    ensures RunPostedOf(w).emitted == w.emitted
  {
  }

  lemma FrameWrittenEmits(w: Writer)
    requires w.outgoing != [] && w.frame != NoWrite
    ensures FrameWrittenOf(w).emitted == w.emitted
  {
  }

  lemma EmitWork(w: Writer, count: nat)
    requires w.frame != NoWrite && count <= |w.frame.rest|
    ensures WriterWork(Emit(w, count)) + 3 * count == WriterWork(w)
    ensures |Emit(w, count).emitted| == |w.emitted| + count
  {
    hide PendingWork, QueuedWork;
  }

  lemma EmitWordWork(w: Writer, count: nat)
    requires w.validation.Some? && count <= |w.validation.value|
    ensures WriterWork(EmitWord(w, count)) + 3 * count == WriterWork(w)
    ensures |EmitWord(w, count).emitted| == |w.emitted| + count
  {
    hide PendingWork, QueuedWork;
  }

  lemma WordWrittenWork(w: Writer)
    requires w.validation == Some([])
    ensures WriterWork(w.(validation := None)) < WriterWork(w)
  {
    hide PendingWork, QueuedWork;
  }

  /** Every quiet step of a party uses up work, the bytes it sends and receives included. */
  lemma PartyWorkDecreases(e: Endpoint, act: Action, greeting: seq<Msg>)
    requires FreeState(e) && Enabled(e, act) && Quiet(act)
    ensures var f := Next(e, act, if e.server then greeting else []);
            PartyWork(f, greeting) + 2 * |Sent(e, f)|
            < PartyWork(e, greeting) + (if act.Receive? then 2 * |act.chunk| else 0)
  {
    hide ReaderState, HandshakeState, HeaderBytes, HeaderSize, WordOf, ScrambleWord, Resized, PendingWork, QueuedWork;
    hide WriterWork, Emit, EmitWord, RunPostedOf, FrameWrittenOf, WriterChain;
    match act
    case RunPosted => RunPostedWork(e.out); RunPostedEmits(e.out);
    case FrameWritten => FrameWrittenWork(e.out); FrameWrittenEmits(e.out);
    case ReadDone => ReadDoneWork(e, greeting);
    case EmitFrame(count) => EmitWork(e.out, count);
    case EmitValidation(count) => EmitWordWork(e.out, count);
    case ValidationWritten => WordWrittenWork(e.out);
    case _ =>
  }

  lemma ReadDoneWork(e: Endpoint, greeting: seq<Msg>)
    requires FreeState(e) && Enabled(e, ReadDone)
    ensures var f := Next(e, ReadDone, if e.server then greeting else []);
            PartyWork(f, greeting) + 2 * |Sent(e, f)| < PartyWork(e, greeting)
  {
    hide FreeState, WriterWork, ValidationRead, HeaderRead, BodyRead, PendingWork;
    match e.inp.reading
    case ReadingValidation => ValidationReadWork(e, greeting);
    case ReadingHeader => PastHandshakeState(e); ReadWork(e.inp);
    case ReadingBody => PastHandshakeState(e); ReadWork(e.inp);
    case NoRead =>
  }

  lemma PastHandshakeState(e: Endpoint)
    requires FreeState(e) && (e.inp.reading == ReadingHeader || e.inp.reading == ReadingBody)
    ensures 8 <= e.inp.framed <= |e.inp.consumed| && (e.inp.reading == ReadingBody ==> e.inp.temp.size > 0)
  {
    hide WriterStream, HandshakeState, Taken, HeaderSize;
  }

  lemma ReadWork(r: Reader)
    requires 8 <= r.framed <= |r.consumed|
    ensures r.reading == ReadingHeader && |r.got| == 8 ==> HeaderRead(r).got == [] && HeaderRead(r).framed >= 8
    ensures BodyRead(r).got == [] && BodyRead(r).framed >= 8
  {
    hide HeaderSize, Resized;
  }

  lemma QueueWork(w: Writer, ms: seq<Msg>)
    ensures WriterWork(Queue(w, ms)) == WriterWork(w) + PendingWork(ms) && Queue(w, ms).emitted == w.emitted
  {
    hide PendingWork, QueuedWork;
    PendingWorkConcat(w.pending, ms);
  }

  lemma AnswerWork(w: Writer, word: uint64)
    requires w.validation == None
    ensures WriterWork(Answer(w, word)) == WriterWork(w) + 25 && Answer(w, word).emitted == w.emitted
  {
    hide PendingWork, QueuedWork;
  }

  lemma UnansweredState(e: Endpoint)
    requires FreeState(e) && e.inp.reading == ReadingValidation
    ensures !e.server ==> e.out.validation == None
  {
    hide WriterStream, Taken, WordOf, ScrambleWord;
  }

  lemma ValidationReadWork(e: Endpoint, greeting: seq<Msg>)
    requires FreeState(e) && e.inp.reading == ReadingValidation && |e.inp.got| == 8
    ensures var f := ValidationRead(e, if e.server then greeting else []);
            PartyWork(f, greeting) < PartyWork(e, greeting) && f.out.emitted == e.out.emitted
  {
    hide FreeState, WriterStream, WordOf, ScrambleWord, WriterWork, PendingWork, Queue, Answer;
    ValidationPending(e);
    UnansweredState(e);
    QueueWork(e.out, greeting);
    if !e.server {
      AnswerWork(e.out, ScrambleWord(WordOf(e.inp.got)));
    }
  }

  /** Every quiet step of the network uses up work. */
  lemma WorkDecreases(n: Net, a: NetAction, greeting: seq<Msg>)
    requires NetState(n) && NetEnabled(n, a) && NetQuiet(a)
    ensures Work(NetNext(n, a, greeting), greeting) < Work(n, greeting)
  {
    hide FreeState, WriterStream, Ahead, Enabled, Next, PartyWork, Sent, Channel;
    match a
    case ByServer(act) => PartyWorkDecreases(n.server, act, greeting);
    case ByClient(act) => PartyWorkDecreases(n.client, act, greeting);
  }

  /** As long as the client's bytes are in order no quiet step closes a socket. */
  lemma StaysOpen(n: Net, a: NetAction, greeting: seq<Msg>)
    requires InOrder(n) && NetEnabled(n, a) && NetQuiet(a)
    ensures NetNext(n, a, greeting).server.open == n.server.open
    ensures NetNext(n, a, greeting).client.open == n.client.open
  {
    hide FreeState, WriterStream, Ahead, RunPostedOf, FrameWrittenOf, Emit, EmitWord, HeaderRead, BodyRead, WordOf,
         ScrambleWord, Channel;
    HandshakeSucceeds(n);
  }

  /** Both writers have nothing left to do. */
  predicate WriterIdle(w: Writer) {
    w.pending == [] && w.validation == None && w.frame == NoWrite
  }

  /** An idle writer with an open socket has emptied its queue and put its whole script on the wire. */
  lemma IdleWroteAll(e: Endpoint)
    requires EndpointState(e) && e.open && WriterIdle(e.out)
    ensures e.out.outgoing == []
    ensures e.out.emitted == Script(e.out)
  {
    hide ReaderState, HandshakeState, Frames, WordBytes;
    assert e.out.posted[..|e.out.posted|] == e.out.posted;
    if e.out.issued {
      assert Outstanding(e.out) == [] && Current(e.out) == [];
      assert e.out.emitted + [] == e.out.emitted;
    }
  }

  /** The step a party's writer can take. */
  lemma WriterProgress(e: Endpoint, arriving: seq<byte>) returns (act: Action)
    requires EndpointState(e) && e.open && !WriterIdle(e.out) && e.out.issued
    ensures PartyEnabled(e, arriving, act) && Quiet(act)
  {
    hide ReaderState, HandshakeState, Script, Handed, Frames;
    if e.out.pending != [] {
      act := RunPosted;
    } else if e.out.validation.Some? {
      var rest := e.out.validation.value;
      act := if rest == [] then ValidationWritten else EmitValidation(|rest|);
    } else {
      var rest := e.out.frame.rest;
      act := if rest == [] then FrameWritten else EmitFrame(|rest|);
    }
  }

  /** A client that has not answered yet has nothing to write. */
  lemma NotIssued(e: Endpoint)
    requires EndpointState(e) && e.open && !e.out.issued
    ensures e.out.validation == None && e.out.emitted == Script(e.out)
  {
    hide ReaderState, HandshakeState, Frames, WordBytes, HeaderBytes;
  }

  /** The step a party's reader can take when bytes are waiting or its read is complete. */
  lemma ReaderProgress(e: Endpoint, arriving: seq<byte>) returns (act: Action)
    requires FreeState(e) && e.open && e.out.validation == None
    requires arriving != [] || |e.inp.got| == Need(e.inp)
    ensures PartyEnabled(e, arriving, act) && Quiet(act) && !act.RunPosted?
  {
    hide WriterStream, Taken, HeaderSize, WordOf, ScrambleWord;
    assert e.inp.reading != NoRead && |e.inp.got| <= Need(e.inp);
    if |e.inp.got| == Need(e.inp) {
      act := ReadDone;
    } else {
      var missing := Need(e.inp) - |e.inp.got|;
      act := Receive(arriving[..if missing <= |arriving| then missing else |arriving|]);
    }
  }

  lemma OpenReads(e: Endpoint)
    requires FreeState(e) && e.open && e.out.validation == None
    ensures e.inp.reading != NoRead && |e.inp.got| <= Need(e.inp)
    ensures e.inp.reading == ReadingValidation ==> e.inp.consumed == e.inp.got
  {
    hide WriterStream, Taken, HeaderSize, WordOf, ScrambleWord;
  }

  /** The bytes of the frame being read are what is left of the stream after the delivered frames. */
  lemma LeftOver(from: Endpoint, to: Endpoint)
    requires EndpointState(from) && FreeState(to) && AllWellFramed(from.out.posted)
    requires Channel(from, to, []) && from.out.emitted == Script(from.out)
    requires to.inp.framed >= 8
    ensures |to.inp.delivered| <= |from.out.posted| && to.inp.framed <= |to.inp.consumed|
    ensures to.inp.consumed[to.inp.framed..] == Frames(from.out.posted[|to.inp.delivered|..])
  {
    hide FreeState, WriterStream, WordBytes, Received, Frames;
    Delivery(from, to, []);
    ReadsScript(from, to, []);
    FramesBehind(WordBytes(from.out.word), from.out.posted, |to.inp.delivered|, to.inp.consumed, to.inp.framed);
  }

  lemma FramesBehind(word: seq<byte>, ms: seq<Msg>, k: nat, bytes: seq<byte>, at: nat)
    requires |word| == 8 && bytes == word + Frames(ms)
    requires k <= |ms| && 8 <= at <= |bytes| && bytes[8..at] == Frames(ms[..k])
    ensures bytes[at..] == Frames(ms[k..])
  {
    hide Frames;
    FramesConcat(ms[..k], ms[k..]);
    assert ms == ms[..k] + ms[k..];
    Behind(word, Frames(ms[..k]), Frames(ms[k..]), bytes, at);
  }

  lemma Behind(word: seq<byte>, front: seq<byte>, back: seq<byte>, bytes: seq<byte>, at: nat)
    requires bytes == word + (front + back)
    requires |word| <= at <= |bytes| && bytes[|word|..at] == front
    ensures bytes[at..] == back
  {
    assert at == |word| + |front|;
  }

  /** A reader that has read its peer's whole script and waits for more stands at the end of the last frame,
      with everything delivered. */
  lemma ReadAll(from: Endpoint, to: Endpoint)
    requires EndpointState(from) && FreeState(to) && AllWellFramed(from.out.posted)
    requires Channel(from, to, []) && from.out.emitted == Script(from.out) && from.out.issued
    requires to.open && to.out.validation == None && |to.inp.got| != Need(to.inp)
    ensures to.inp.framed >= 8 && to.inp.got == []
    ensures to.inp.delivered == Received([], from.out.posted)
  {
    hide FreeState, WriterStream, Frames, WordBytes;
    OpenReads(to);
    assert to.inp.consumed == Script(from.out);
    PastHandshakeState(to);
    LeftOver(from, to);
    Delivery(from, to, []);
    var rest := from.out.posted[|to.inp.delivered|..];
    NoWholeFrame(to, rest);
    assert from.out.posted[..|to.inp.delivered|] == from.out.posted;
  }

  /** An incomplete read does not hold a whole frame. */
  lemma NoWholeFrame(e: Endpoint, ms: seq<Msg>)
    requires FreeState(e) && (e.inp.reading == ReadingHeader || e.inp.reading == ReadingBody)
    requires AllWellFramed(ms) && e.inp.framed <= |e.inp.consumed| && e.inp.consumed[e.inp.framed..] == Frames(ms)
    requires |e.inp.got| != Need(e.inp)
    ensures ms == [] && e.inp.got == []
  {
    hide WriterStream, HandshakeState, Taken, HeaderSize, HeaderBytes;
    FirstHeader(ms);
    SliceHeader(e.inp.consumed, e.inp.framed);
  }

  lemma SliceHeader(s: seq<byte>, at: nat)
    ensures at + 8 <= |s| ==> s[at..at + 8] == s[at..][..8]
  {
  }

  lemma FirstHeader(ms: seq<Msg>)
    requires AllWellFramed(ms)
    ensures ms != [] ==> |Frames(ms)| >= 8 + |ms[0].body| && HeaderSize(Frames(ms)[..8]) == |ms[0].body|
  {
    hide HeaderSize, HeaderBytes;
    if ms != [] {
      HeaderRoundTrip(ms[0]);
      assert Frames(ms)[..8] == HeaderBytes(ms[0]);
    }
  }

  /** As long as any work is left, some quiet step is possible, and one that keeps the client's bytes in order. */
  lemma Progress(n: Net, greeting: seq<Msg>) returns (a: NetAction)
    requires NetState(n) && n.server.open && n.client.open && Work(n, greeting) > 0
    ensures NetEnabled(n, a) && NetQuiet(a) && (InOrder(n) ==> Patient(n, a))
  {
    hide FreeState, WriterStream, Ahead, PartyEnabled, Work, Enabled, Quiet, Script, Channel, Need;
    if WriterStream(n.client.out, n.client.open) {
      a := OrderedProgress(n, greeting);
    } else {
      a := AheadProgress(n);
    }
  }

  lemma OrderedProgress(n: Net, greeting: seq<Msg>) returns (a: NetAction)
    requires InOrder(n) && n.server.open && n.client.open && Work(n, greeting) > 0
    ensures NetEnabled(n, a) && NetQuiet(a) && Patient(n, a)
  {
    hide FreeState, WriterStream, Ahead, PartyEnabled, Work, Enabled, Script, Channel, Need;
    var s, c, act := n.server, n.client, RunPosted;
    Issued(s);
    if !c.out.issued {
      NotIssued(c);
    }
    if !WriterIdle(s.out) {
      act := WriterProgress(s, n.up);
      a := ByServer(act);
    } else if c.out.issued && !WriterIdle(c.out) {
      act := WriterProgress(c, n.down);
      a := ByClient(act);
    } else if n.up != [] || |s.inp.got| == Need(s.inp) {
      act := ReaderProgress(s, n.up);
      a := ByServer(act);
    } else if n.down != [] || |c.inp.got| == Need(c.inp) {
      act := ReaderProgress(c, n.down);
      a := ByClient(act);
    } else {
      a := ByServer(act);
      AllDone(n, greeting);
      assert false;
    }
  }

  /** A client ahead of its answer writes on, until the server has read eight bytes and closes. */
  lemma AheadProgress(n: Net) returns (a: NetAction)
    requires NetState(n) && n.server.open && n.client.open && Ahead(n.client.out, n.client.open)
    ensures NetEnabled(n, a) && NetQuiet(a)
  {
    hide WriterStream, ReaderState, HandshakeState, HeaderBytes, WordBytes, IsSuffix;
    AheadRefused(n);
    var s, w := n.server.inp, n.client.out;
    if |w.emitted| < 8 {
      a := ByClient(EmitFrame(|w.frame.rest|));
    } else if |s.got| == 8 {
      a := ByServer(ReadDone);
    } else {
      UnreadLeft(n);
      var missing := 8 - |s.got|;
      a := ByServer(Receive(n.up[..if missing <= |n.up| then missing else |n.up|]));
    }
  }

  lemma UnreadLeft(n: Net)
    requires NetState(n) && n.server.open && Ahead(n.client.out, n.client.open)
    requires |n.client.out.emitted| >= 8 && |n.server.inp.got| != 8
    ensures |n.server.inp.got| < 8 && n.up != []
  {
    hide WriterStream, FreeWriter, HandshakeState, Taken, HeaderSize, Ahead;
    AheadRefused(n);
  }

  /** Idle writers, empty streams and incomplete reads: no work is left and everything has been delivered. */
  lemma AllDone(n: Net, greeting: seq<Msg>)
    requires InOrder(n) && n.server.open && n.client.open
    requires WriterIdle(n.server.out) && (WriterIdle(n.client.out) || !n.client.out.issued)
    requires n.up == [] && n.down == []
    requires |n.server.inp.got| != Need(n.server.inp) && |n.client.inp.got| != Need(n.client.inp)
    ensures Work(n, greeting) == 0
    ensures Drained(n)
  {
    hide FreeState, WriterStream, Ahead, Script, Channel, Need, Frames;
    var s, c := n.server, n.client;
    IdleWroteAll(s);
    Issued(s);
    if !c.out.issued {
      NotIssued(c);
    }
    ReadAll(s, c);
    Issued(c);
    IdleWroteAll(c);
    ReadAll(c, s);
  }

  lemma Issued(e: Endpoint)
    requires FreeState(e) && (e.server || 8 <= e.inp.framed)
    ensures e.out.issued
  {
    hide WriterStream, Taken, WordOf, ScrambleWord, HeaderSize;
  }

  /** Nothing is queued, outstanding or under way, and each side has been handed all that the other posted. */
  predicate Drained(n: Net) {
    && WriterIdle(n.server.out) && n.server.out.outgoing == []
    && WriterIdle(n.client.out) && n.client.out.outgoing == []
    && n.up == [] && n.down == [] && n.server.inp.got == [] && n.client.inp.got == []
    && n.server.inp.framed >= 8 && n.client.inp.framed >= 8
    && n.client.inp.delivered == Received([], n.server.out.posted)
    && n.server.inp.delivered == Received([], n.client.out.posted)
  }

  /** Work is zero exactly when the network is drained, while both sockets are open. */
  lemma DrainedIff(n: Net, greeting: seq<Msg>)
    requires NetState(n) && n.server.open && n.client.open
    ensures Work(n, greeting) == 0 <==> Drained(n)
  {
    hide FreeState, WriterStream, Ahead, Script, Channel, Received, Frames, Work, NetEnabled, NetNext;
    if !WriterStream(n.client.out, n.client.open) {
      AheadRefused(n);
      var a := AheadProgress(n);
      WorkDecreases(n, a, greeting);
    } else if Work(n, greeting) == 0 {
      NoWork(n, greeting);
      NoWorkIdle(n.server);
      NoWorkIdle(n.client);
      AllDone(n, greeting);
    }
    if Drained(n) {
      DrainedNoWork(n, greeting);
    }
  }

  lemma NoWork(n: Net, greeting: seq<Msg>)
    requires Work(n, greeting) == 0
    ensures WriterWork(n.server.out) == 0 && n.server.inp.got == [] && n.up == []
    ensures WriterWork(n.client.out) == 0 && n.client.inp.got == [] && n.down == []
  {
    hide WriterWork;
  }

  lemma DrainedNoWork(n: Net, greeting: seq<Msg>)
    requires Drained(n)
    ensures Work(n, greeting) == 0
  {
    hide Received;
  }

  lemma NoWorkIdle(e: Endpoint)
    requires FreeState(e) && e.open && WriterWork(e.out) == 0 && e.inp.got == []
    ensures WriterIdle(e.out) && |e.inp.got| != Need(e.inp)
  {
    hide WriterStream, Taken, HeaderSize, WordOf, ScrambleWord, QueuedWork;
  }

  predicate AllQuiet(acts: seq<NetAction>) {
    forall k :: 0 <= k < |acts| ==> NetQuiet(acts[k])
  }

  /** No run of quiet steps is longer than the work it started with. */
  lemma {:induction false} QuietRunsEnd(n: Net, acts: seq<NetAction>, greeting: seq<Msg>)
    requires NetState(n) && NetRun(n, acts, greeting) && AllQuiet(acts) && AllWellFramed(greeting)
    ensures |acts| + Work(After(n, acts, greeting), greeting) <= Work(n, greeting)
    decreases |acts|
  {
    hide NetState, InOrder, NetNext, NetEnabled, Work, NetQuiet;
    if acts != [] {
      var next := NetNext(n, acts[0], greeting);
      NetStepKeepsState(n, acts[0], greeting);
      WorkDecreases(n, acts[0], greeting);
      assert forall k :: 0 <= k < |acts[1..]| ==> acts[1..][k] == acts[k + 1];
      QuietRunsEnd(next, acts[1..], greeting);
    }
  }

  /** From any state with both sockets open and the client's bytes in order there is a quiet run that drains the
      network. */
  lemma {:induction false} CanDrain(n: Net, greeting: seq<Msg>) returns (acts: seq<NetAction>)
    requires InOrder(n) && n.server.open && n.client.open && AllWellFramed(greeting)
    ensures NetRun(n, acts, greeting) && AllQuiet(acts)
    ensures Drained(After(n, acts, greeting))
    decreases Work(n, greeting)
  {
    hide NetState, WriterStream, NetNext, NetEnabled, Work, NetQuiet, Drained;
    if Work(n, greeting) == 0 {
      DrainedIff(n, greeting);
      acts := [];
    } else {
      var a := Progress(n, greeting);
      NetStepKeepsState(n, a, greeting);
      WorkDecreases(n, a, greeting);
      StaysOpen(n, a, greeting);
      var rest := CanDrain(NetNext(n, a, greeting), greeting);
      acts := [a] + rest;
      assert acts[1..] == rest;
    }
  }

  /** A reachable state with open sockets in which only new sends or errors could happen is one in which everything has
      arrived. With QuietRunsEnd: every error-free run without new sends, carried on for as long as it can be, ends
      with everything delivered. */
  lemma StuckIsDrained(challenge: uint64, pending: seq<Msg>, acts: seq<NetAction>, greeting: seq<Msg>)
    requires AllWellFramed(pending) && AllWellFramed(greeting)
    requires NetRun(NetInit(challenge, pending), acts, greeting)
    requires var n := After(NetInit(challenge, pending), acts, greeting);
             n.server.open && n.client.open && forall a :: NetEnabled(n, a) ==> !NetQuiet(a)
    ensures Drained(After(NetInit(challenge, pending), acts, greeting))
  {
    hide NetState, NetNext, NetEnabled, Work, NetQuiet, Drained, NetInit;
    NetInitState(challenge, pending);
    NetRunKeepsState(NetInit(challenge, pending), acts, greeting);
    var n := After(NetInit(challenge, pending), acts, greeting);
    DrainedIff(n, greeting);
    if Work(n, greeting) > 0 {
      var a := Progress(n, greeting);
    }
  }

  /** From every reachable state with open sockets everything posted so far, and the greeting, can still arrive,
      provided no send posted by the client ran before its answer was issued. */
  lemma EverythingCanArrive(challenge: uint64, pending: seq<Msg>, acts: seq<NetAction>, greeting: seq<Msg>)
    returns (more: seq<NetAction>)
    requires AllWellFramed(pending) && AllWellFramed(greeting)
    requires NetRun(NetInit(challenge, pending), acts, greeting)
    requires AnswerFirst(NetInit(challenge, pending), acts, greeting)
    requires var n := After(NetInit(challenge, pending), acts, greeting); n.server.open && n.client.open
    ensures var n := After(NetInit(challenge, pending), acts, greeting);
            NetRun(n, more, greeting) && AllQuiet(more) && Drained(After(n, more, greeting))
  {
    hide NetState, InOrder, NetNext, NetEnabled, NetQuiet, Drained, NetInit;
    NetInitState(challenge, pending);
    RunKeepsOrder(NetInit(challenge, pending), acts, greeting);
    more := CanDrain(After(NetInit(challenge, pending), acts, greeting), greeting);
  }

  /** Otherwise nothing the client sends ever arrives, whatever follows. */
  lemma NeverArrives(challenge: uint64, pending: seq<Msg>, acts: seq<NetAction>, greeting: seq<Msg>,
                     more: seq<NetAction>)
    requires AllWellFramed(pending) && AllWellFramed(greeting)
    requires NetRun(NetInit(challenge, pending), acts, greeting)
    requires !AnswerFirst(NetInit(challenge, pending), acts, greeting)
    requires NetRun(After(NetInit(challenge, pending), acts, greeting), more, greeting)
    ensures var n := After(After(NetInit(challenge, pending), acts, greeting), more, greeting);
            n.server.inp.delivered == [] && !Drained(n)
  {
    hide NetState, InOrder, NetNext, NetEnabled, NetInit, AnswerFirst;
    NetInitState(challenge, pending);
    RunKeepsOrder(NetInit(challenge, pending), acts, greeting);
    var n := After(NetInit(challenge, pending), acts, greeting);
    RunStaysAhead(n, more, greeting);
    AheadRefused(After(n, more, greeting));
  }
}
