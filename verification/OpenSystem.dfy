/** One endpoint against an arbitrary peer: whatever bytes arrive, the reader refines the reference parser,
    nothing is delivered before the handshake succeeded, and the writer keeps to its script. */
module OpenSystem {
  import opened Bytes
  import opened Vectors
  import opened Options
  import opened Params
  import opened Messages
  import opened Scramble
  import opened Framing
  import opened Endpoints

  /** What the reference parser makes of the bytes that the finished reads account for. */
  function Taken(r: Reader): Parsed
    requires r.framed <= |r.consumed|
  {
    if r.framed < 8 then Parsed([], [], []) else Parse([], r.consumed[8..r.framed])
  }

  /** The reader's state in terms of the bytes it has read. */
  predicate ReaderState(r: Reader) {
    && r.framed <= |r.consumed|
    && (r.framed == 0 || r.framed >= 8)
    && (r.framed == 0 ==> r.reading == ReadingValidation || r.reading == NoRead)
    && Taken(r).ms == r.delivered && Taken(r).rest == []
    && (r.reading == ReadingValidation ==> r.framed == 0 && r.consumed == r.got && |r.got| <= 8 && r.temp.body == [])
    && (r.reading == ReadingHeader ==>
          r.consumed[r.framed..] == r.got && |r.got| <= 8 && r.temp.body == Taken(r).stale)
    && (r.reading == ReadingBody ==>
          && |r.consumed| >= r.framed + 8
          && r.temp.id == r.consumed[r.framed]
          && r.temp.size == HeaderSize(r.consumed[r.framed..r.framed + 8]) > 0
          && r.consumed[r.framed + 8..] == r.got && |r.got| <= r.temp.size)
  }

  /** A client that read the server's word and is writing its answer. */
  predicate Answering(r: Reader) {
    r.reading == NoRead && r.framed == |r.consumed| == 8 && r.delivered == [] && r.temp.body == []
  }

  /** The outcome of the handshake, as the bytes read so far decide it. */
  predicate HandshakeState(e: Endpoint) {
    && (e.server ==> e.out.issued && e.handshakeCheck == ScrambleWord(e.out.word))
    && (e.inp.framed == 0 ==>
          && e.validations == 0
          && (e.inp.reading == ReadingValidation || !e.open)
          && (!e.server ==> !e.out.issued && e.out.validation == None))
    && (8 <= e.inp.framed <= |e.inp.consumed| ==>
          && e.handshakeIn == WordOf(e.inp.consumed[..8])
          && (e.server ==> e.validations == if e.handshakeIn == e.handshakeCheck then 1 else 0)
          && (e.server && e.validations == 0 ==> e.inp.reading == NoRead && !e.open && e.inp.framed == 8)
          && (!e.server ==> e.validations == 0 && e.out.issued && e.out.word == ScrambleWord(e.handshakeIn)))
    && (e.inp.reading == NoRead && e.open ==> !e.server && e.out.validation.Some?)
    && (!e.server && e.out.validation.Some? ==> Answering(e.inp))
  }

  /** What every step keeps, however early the application sends. */
  predicate FreeState(e: Endpoint) {
    ReaderState(e.inp) && HandshakeState(e) && FreeWriter(e.out, e.open)
  }

  /** What is kept besides as long as no frame gets in front of the handshake word. */
  predicate EndpointState(e: Endpoint) {
    FreeState(e) && WriterStream(e.out, e.open)
  }

  lemma InitStream(challenge: uint64, pending: seq<Msg>)
    ensures WriterStream(ServerInit(challenge, pending).out, true) && WriterStream(ClientInit().out, true)
  {
    hide WordBytes, HeaderBytes, Frames;
    var w := ServerInit(challenge, pending).out;
    assert w.posted[..0] == [] && w.posted[0..] == pending;
    NoFrames();
    assert Handed(w) == WordBytes(challenge) == Outstanding(w);
  }

  lemma NoFrames()
    ensures Frames([]) == []
  {
  }

  lemma InitState(challenge: uint64, pending: seq<Msg>)
    ensures EndpointState(ServerInit(challenge, pending)) && EndpointState(ClientInit())
  {
    hide WriterStream, WriterChain, Parse, HeaderSize, WordOf, ScrambleWord, WordBytes;
    InitStream(challenge, pending);
    StreamIsFree(ServerInit(challenge, pending).out, true);
    StreamIsFree(ClientInit().out, true);
  }

  lemma StreamIsFree(w: Writer, open: bool)
    requires WriterStream(w, open)
    ensures FreeWriter(w, open)
  {
    hide FreeWriter, Script, Handed, WordFirst;
  }

  // The reader, handler by handler.

  lemma AcceptKeepsReader(r: Reader, chunk: seq<byte>)
    requires ReaderState(r) && r.reading != NoRead && |r.got| + |chunk| <= Need(r)
    ensures ReaderState(Accept(r, chunk))
  {
    hide Parse, HeaderSize;
    var s := Accept(r, chunk);
    if r.framed >= 8 {
      assert s.consumed[8..s.framed] == r.consumed[8..r.framed];
      assert s.consumed[s.framed..] == r.consumed[r.framed..] + chunk;
      if r.reading == ReadingBody {
        assert s.consumed[s.framed + 8..] == r.consumed[r.framed + 8..] + chunk;
        assert s.consumed[s.framed] == r.consumed[r.framed];
        assert s.consumed[s.framed..s.framed + 8] == r.consumed[r.framed..r.framed + 8];
      }
    }
  }

  /** The finished reads account for one more frame f. */
  lemma FrameTaken(r: Reader, f: seq<byte>)
    requires ReaderState(r) && r.framed >= 8
    requires r.consumed[r.framed..] == f && OneFrame(f)
    ensures var m := FrameMsg(Taken(r).stale, f);
            Parse([], r.consumed[8..]) == Parsed(r.delivered + [m], m.body, [])
  {
    ParseAppend([], r.consumed[8..r.framed], f);
    assert r.consumed[8..] == r.consumed[8..r.framed] + f;
  }

  lemma HeaderReadKeepsReader(r: Reader)
    requires ReaderState(r) && r.reading == ReadingHeader && |r.got| == 8
    ensures ReaderState(HeaderRead(r))
  {
    hide Parse, HeaderSize, Resized;
    var s := HeaderRead(r);
    assert r.consumed[r.framed..r.framed + 8] == r.got;
    assert r.consumed[r.framed] == r.got[0];
    if HeaderSize(r.got) == 0 {
      assert r.got[..8] == r.got;
      FrameTaken(r, r.got);
      assert s.consumed[8..s.framed] == r.consumed[8..];
    }
  }

  lemma BodyReadKeepsReader(r: Reader)
    requires ReaderState(r) && r.reading == ReadingBody && |r.got| == r.temp.size
    ensures ReaderState(BodyRead(r))
  {
    hide Parse, HeaderSize;
    var s, header := BodyRead(r), r.consumed[r.framed..r.framed + 8];
    var whole := r.consumed[r.framed..];
    assert whole[..8] == header && whole[8..] == r.got;
    FrameTaken(r, whole);
    assert s.consumed[8..s.framed] == r.consumed[8..];
  }

  lemma WordReadKeepsReader(r: Reader)
    requires ReaderState(r) && r.reading == ReadingValidation && |r.got| == 8
    ensures var s := r.(framed := |r.consumed|);
            ReaderState(Await(s, ReadingHeader)) && ReaderState(Await(s, NoRead)) && Answering(Await(s, NoRead))
  {
    assert r.consumed[8..8] == [] && r.consumed[8..] == [];
  }

  lemma AnsweredKeepsReader(r: Reader)
    requires ReaderState(r) && Answering(r)
    ensures ReaderState(Await(r, ReadingHeader))
  {
    assert r.consumed[8..8] == [] && r.consumed[8..] == [];
  }

  // Every step, writer, reader and handshake together.

  lemma ReadDoneKeepsFree(e: Endpoint, greeting: seq<Msg>)
    requires FreeState(e) && Enabled(e, ReadDone)
    ensures FreeState(Next(e, ReadDone, greeting))
  {
    hide WriterChain, ReaderState, WordOf, ScrambleWord;
    match e.inp.reading
    case ReadingValidation =>
      ValidationPending(e);
      WordReadKeepsReader(e.inp);
      QueueKeepsChain(e.out, greeting);
      AnswerKeepsChain(e.out, ScrambleWord(WordOf(e.inp.got)));
    case ReadingHeader =>
      HeaderReadKeepsReader(e.inp);
      PastHandshake(e.inp);
    case ReadingBody =>
      BodyReadKeepsReader(e.inp);
      PastHandshake(e.inp);
    case NoRead =>
  }

  lemma ValidationPending(e: Endpoint)
    requires FreeState(e) && e.inp.reading == ReadingValidation
    ensures e.inp.framed == 0 && e.inp.consumed == e.inp.got && (!e.server ==> !e.out.issued)
    ensures |e.inp.got| == 8 ==> e.inp.consumed[..8] == e.inp.got
  {
    hide FreeWriter, Taken, WordOf, ScrambleWord;
  }

  lemma PastHandshake(r: Reader)
    requires ReaderState(r) && (r.reading == ReadingHeader || r.reading == ReadingBody)
    ensures 8 <= r.framed <= |r.consumed|
  {
    hide Taken, HeaderSize;
  }

  lemma ReceiveKeepsFree(e: Endpoint, chunk: seq<byte>)
    requires FreeState(e) && Enabled(e, Receive(chunk))
    ensures FreeState(e.(inp := Accept(e.inp, chunk)))
  {
    hide FreeWriter, Taken, HeaderSize, WordOf, ScrambleWord;
    AcceptKeepsReader(e.inp, chunk);
    if e.inp.framed >= 8 {
      assert Accept(e.inp, chunk).consumed[..8] == e.inp.consumed[..8];
    }
  }

  lemma ValidationWrittenKeepsFree(e: Endpoint)
    requires FreeState(e) && Enabled(e, ValidationWritten)
    ensures FreeState(ValidationWrittenOf(e))
  {
    hide ReaderState, WordOf, ScrambleWord, HeaderBytes, WordBytes;
    if !e.server {
      AnsweredKeepsReader(e.inp);
    }
  }

  lemma ReadFailsKeepsFree(e: Endpoint)
    requires FreeState(e) && Enabled(e, ReadFails)
    ensures FreeState(Next(e, ReadFails, []))
  {
    hide WriterChain, Parse, HeaderSize, WordOf, ScrambleWord;
  }

  predicate WriterStep(act: Action) {
    !act.Receive? && !act.ReadDone? && !act.ReadFails? && !act.ValidationWritten?
  }

  /** The handshake does not depend on how far the writer has come. */
  lemma SameHandshake(e: Endpoint, out: Writer, open: bool)
    requires HandshakeState(e)
    requires out.issued == e.out.issued && out.word == e.out.word && (open ==> e.open)
    requires out.validation.Some? == e.out.validation.Some? || (!open && out.validation == None)
    ensures HandshakeState(e.(out := out, open := open))
  {
    hide WordOf, ScrambleWord;
  }

  lemma WriterStepKeepsChain(e: Endpoint, act: Action, greeting: seq<Msg>)
    requires FreeWriter(e.out, e.open) && Enabled(e, act) && WriterStep(act)
    ensures FreeWriter(Next(e, act, greeting).out, Next(e, act, greeting).open)
  {
    hide WriterChain;
    match act
    case Post(m) => QueueKeepsChain(e.out, [m]);
    case RunPosted => RunPostedKeepsChain(e.out);
    case EmitValidation(count) => EmitWordKeepsChain(e.out, count);
    case EmitFrame(count) => EmitKeepsChain(e.out, count);
    case FrameWritten => FrameWrittenKeepsChain(e.out);
    case ValidationWriteFails => FailKeepsChain(e.out, e.open);
    case FrameWriteFails => FailKeepsChain(e.out, e.open);
    case Disconnect => FailKeepsChain(e.out, e.open);
  }

  lemma WriterStepKeepsFree(e: Endpoint, act: Action, greeting: seq<Msg>)
    requires FreeState(e) && Enabled(e, act) && WriterStep(act)
    ensures FreeState(Next(e, act, greeting))
  {
    hide FreeWriter, ReaderState, HandshakeState, HeaderBytes;
    WriterStepKeepsChain(e, act, greeting);
    var f := Next(e, act, greeting);
    assert f == e.(out := f.out, open := f.open);
    SameHandshake(e, f.out, f.open);
  }

  /** Every step of an endpoint keeps its state in line with the bytes it has read, and its frame writes in line with
      its queue, whatever arrives and whenever it sends. */
  lemma StepKeepsFree(e: Endpoint, act: Action, greeting: seq<Msg>)
    requires FreeState(e) && Enabled(e, act)
    ensures FreeState(Next(e, act, greeting))
  {
    hide FreeState, Accept, ReadDoneOf, ValidationWrittenOf;
    match act
    case Receive(chunk) => ReceiveKeepsFree(e, chunk);
    case ReadDone => ReadDoneKeepsFree(e, greeting);
    case ValidationWritten => ValidationWrittenKeepsFree(e);
    case ReadFails => ReadFailsKeepsFree(e);
    case _ => WriterStepKeepsFree(e, act, greeting);
  }

  lemma WriterStepKeepsStream(e: Endpoint, act: Action, greeting: seq<Msg>)
    requires WriterStream(e.out, e.open) && Enabled(e, act) && WriterStep(act)
    requires act.RunPosted? ==> e.out.issued
    ensures WriterStream(Next(e, act, greeting).out, Next(e, act, greeting).open)
  {
    hide WriterStream, Queue, RunPostedOf, FrameWrittenOf, Emit, EmitWord;
    match act
    case Post(m) => QueueKeepsWriter(e.out, [m], e.open);
    case RunPosted => RunPostedKeepsWriter(e.out, e.open);
    case EmitValidation(count) => EmitWordKeepsWriter(e.out, count);
    case EmitFrame(count) => NotEarly(e.out, e.open); EmitKeepsWriter(e.out, count);
    case FrameWritten => FrameWrittenKeepsWriter(e.out, e.open);
    case ValidationWriteFails => FailKeepsWriter(e.out, e.open);
    case FrameWriteFails => FailKeepsWriter(e.out, e.open);
    case Disconnect => FailKeepsWriter(e.out, e.open);
  }

  lemma NotEarly(w: Writer, open: bool)
    requires WriterStream(w, open)
    ensures !w.early
  {
    hide FreeWriter, Script, Handed;
  }

  lemma ReadDoneKeepsStream(e: Endpoint, greeting: seq<Msg>)
    requires EndpointState(e) && Enabled(e, ReadDone)
    ensures WriterStream(Next(e, ReadDone, greeting).out, Next(e, ReadDone, greeting).open)
  {
    hide WriterStream, FreeState, WordOf, ScrambleWord, Queue, Answer;
    if e.inp.reading == ReadingValidation {
      ValidationPending(e);
      QueueKeepsWriter(e.out, greeting, e.open);
      FailKeepsWriter(e.out, e.open);
      if !e.server {
        AnswerKeepsWriter(e.out, ScrambleWord(WordOf(e.inp.got)), e.open);
      }
    }
  }

  /** And as long as no posted send runs before the handshake word is issued, the bytes on the wire stay a prefix of
      its script. */
  lemma StepKeepsState(e: Endpoint, act: Action, greeting: seq<Msg>)
    requires EndpointState(e) && Enabled(e, act)
    requires act.RunPosted? ==> e.out.issued
    ensures EndpointState(Next(e, act, greeting))
  {
    hide FreeState, WriterStream;
    StepKeepsFree(e, act, greeting);
    match act
    case Receive(chunk) =>
    case ReadDone => ReadDoneKeepsStream(e, greeting);
    case ValidationWritten => WordWrittenKeepsWriter(e.out, e.open);
    case ReadFails => FailKeepsWriter(e.out, e.open);
    case _ => WriterStepKeepsStream(e, act, greeting);
  }

  /** The same side of the connection; a server keeps its challenge. */
  predicate SameParty(e: Endpoint, f: Endpoint) {
    f.server == e.server && (e.server ==> f.out.word == e.out.word)
  }

  lemma StepKeepsParty(e: Endpoint, act: Action, greeting: seq<Msg>)
    requires Enabled(e, act)
    ensures SameParty(e, Next(e, act, greeting))
  {
    hide HeaderRead, BodyRead, HeaderBytes, WordOf, ScrambleWord;
  }

  // Runs against an arbitrary peer.

  predicate ValidRun(e: Endpoint, acts: seq<Action>, greeting: seq<Msg>)
    decreases |acts|
  {
    acts == [] || (Enabled(e, acts[0]) && ValidRun(Next(e, acts[0], greeting), acts[1..], greeting))
  }

  function RunOf(e: Endpoint, acts: seq<Action>, greeting: seq<Msg>): Endpoint
    requires ValidRun(e, acts, greeting)
    decreases |acts|
  {
    if acts == [] then e else RunOf(Next(e, acts[0], greeting), acts[1..], greeting)
  }

  lemma {:induction false} RunKeepsFree(e: Endpoint, acts: seq<Action>, greeting: seq<Msg>)
    requires FreeState(e) && ValidRun(e, acts, greeting)
    ensures FreeState(RunOf(e, acts, greeting)) && SameParty(e, RunOf(e, acts, greeting))
    decreases |acts|
  {
    hide FreeState, Next, Enabled;
    if acts != [] {
      StepKeepsFree(e, acts[0], greeting);
      StepKeepsParty(e, acts[0], greeting);
      RunKeepsFree(Next(e, acts[0], greeting), acts[1..], greeting);
    }
  }

  /** No posted send runs before the handshake word is issued. */
  predicate WordIssuedFirst(e: Endpoint, acts: seq<Action>, greeting: seq<Msg>)
    requires ValidRun(e, acts, greeting)
    decreases |acts|
  {
    acts == [] || ((acts[0].RunPosted? ==> e.out.issued)
                   && WordIssuedFirst(Next(e, acts[0], greeting), acts[1..], greeting))
  }

  lemma {:induction false} RunKeepsState(e: Endpoint, acts: seq<Action>, greeting: seq<Msg>)
    requires EndpointState(e) && ValidRun(e, acts, greeting) && WordIssuedFirst(e, acts, greeting)
    ensures EndpointState(RunOf(e, acts, greeting))
    decreases |acts|
  {
    hide EndpointState, Next, Enabled;
    if acts != [] {
      StepKeepsState(e, acts[0], greeting);
      RunKeepsState(Next(e, acts[0], greeting), acts[1..], greeting);
    }
  }

  /** A server issues its word before anything else, so this is always so for it. */
  lemma {:induction false} ServerIssuesFirst(e: Endpoint, acts: seq<Action>, greeting: seq<Msg>)
    requires e.out.issued && ValidRun(e, acts, greeting)
    ensures WordIssuedFirst(e, acts, greeting)
    decreases |acts|
  {
    hide Next, Enabled;
    if acts != [] {
      StaysIssued(e, acts[0], greeting);
      ServerIssuesFirst(Next(e, acts[0], greeting), acts[1..], greeting);
    }
  }

  lemma StaysIssued(e: Endpoint, act: Action, greeting: seq<Msg>)
    requires e.out.issued && Enabled(e, act)
    ensures Next(e, act, greeting).out.issued
  {
    hide HeaderRead, BodyRead, HeaderBytes, WordOf, ScrambleWord, WordBytes;
  }

  /** The server's handshake over all runs and all peer bytes: it reports at most one validation, exactly when
      the first eight bytes it was sent are the response to its challenge, nibble by nibble; any other word closes the
      connection with nothing delivered; and no message is delivered without a validation. */
  lemma HandshakeSafety(challenge: uint64, pending: seq<Msg>, acts: seq<Action>, greeting: seq<Msg>)
    requires ValidRun(ServerInit(challenge, pending), acts, greeting)
    ensures var e := RunOf(ServerInit(challenge, pending), acts, greeting);
            && e.inp.framed <= |e.inp.consumed|
            && e.validations <= 1
            && (e.inp.delivered != [] ==> e.validations == 1)
            && (e.validations == 1 <==>
                  8 <= e.inp.framed && Answers(WordOf(e.inp.consumed[..8]), challenge))
            && (8 <= e.inp.framed && !Answers(WordOf(e.inp.consumed[..8]), challenge) ==>
                  !e.open && e.inp.reading == NoRead && e.inp.delivered == [])
  {
    hide FreeWriter, WriterStream, HeaderSize, WordOf, ScrambleWord, Answers;
    InitState(challenge, pending);
    RunKeepsFree(ServerInit(challenge, pending), acts, greeting);
    var e := RunOf(ServerInit(challenge, pending), acts, greeting);
    if e.inp.framed == 8 {
      assert e.inp.consumed[8..8] == [];
    }
    if e.inp.framed >= 8 {
      AnswersIff(WordOf(e.inp.consumed[..8]), challenge);
    }
  }

  /** And the client's: the word it issues is the response to the first eight bytes it was sent, whatever they are. */
  lemma ClientAnswers(acts: seq<Action>)
    requires ValidRun(ClientInit(), acts, [])
    ensures var e := RunOf(ClientInit(), acts, []);
            e.out.issued ==>
              && 8 <= |e.inp.consumed| && Answers(e.out.word, WordOf(e.inp.consumed[..8]))
              && e.validations == 0
  {
    hide FreeWriter, WriterStream, HeaderSize, WordOf, ScrambleWord, Answers, Taken;
    InitState(0, []);
    RunKeepsFree(ClientInit(), acts, []);
    var e := RunOf(ClientInit(), acts, []);
    AnswersIff(e.out.word, e.handshakeIn);
  }

  /** At either side, whatever the peer sends: what has been delivered is what the reference parser makes of the bytes
      after the handshake word, up to the frame still being read, whose bytes so far are exactly the rest. */
  lemma ReaderRefinesParser(server: bool, challenge: uint64, pending: seq<Msg>, acts: seq<Action>, greeting: seq<Msg>)
    requires var e := if server then ServerInit(challenge, pending) else ClientInit();
             ValidRun(e, acts, greeting)
    ensures var e := if server then ServerInit(challenge, pending) else ClientInit();
            var r := RunOf(e, acts, greeting).inp;
            && (r.framed < 8 ==> r.delivered == [])
            && (8 <= r.framed ==>
              && r.framed <= |r.consumed|
              && Parse([], r.consumed[8..r.framed]).ms == r.delivered
              && Parse([], r.consumed[8..r.framed]).rest == []
              && (r.reading == ReadingHeader ==> r.consumed[r.framed..] == r.got)
              && (r.reading == ReadingBody ==> |r.consumed| >= r.framed + 8 && r.consumed[r.framed + 8..] == r.got))
  {
    hide FreeWriter, WriterStream, HandshakeState, Parse, HeaderSize;
    InitState(challenge, pending);
    RunKeepsFree(if server then ServerInit(challenge, pending) else ClientInit(), acts, greeting);
  }

  /** Without a write error a frame write is outstanding exactly while the queue is non-empty; the sends queued and
      those waiting are the last ones posted, in posting order; and the outstanding write is for the front frame, of
      which it has left over an end. */
  predicate OneFrameAtATime(w: Writer, open: bool) {
    && |w.outgoing| + |w.pending| <= |w.posted|
    && w.posted == w.posted[..Done(w)] + w.outgoing + w.pending
    && (!w.frameFailed ==> (w.frame == NoWrite <==> w.outgoing == []))
    && (w.frameFailed ==> !open && w.frame == NoWrite && w.outgoing != [])
    && (w.frame.WritingHeader? ==> IsSuffix(w.frame.rest, HeaderBytes(w.outgoing[0])))
    && (w.frame.WritingBody? ==> IsSuffix(w.frame.rest, w.outgoing[0].body))
  }

  /** While the socket is open the bytes written and those still outstanding are the handshake word, the finished frames
      in posting order, and the front frame alone. */
  predicate FramesInOrder(w: Writer, open: bool)
    requires |w.outgoing| + |w.pending| <= |w.posted| && (w.frame != NoWrite ==> w.outgoing != [])
  {
    open && w.issued ==>
      w.emitted + Outstanding(w) == WordBytes(w.word) + Frames(w.posted[..Done(w)]) + Current(w)
  }

  lemma ChainIsExact(w: Writer, open: bool)
    requires FreeWriter(w, open)
    ensures OneFrameAtATime(w, open)
    ensures WriterStream(w, open) ==> FramesInOrder(w, open)
  {
    hide Frames, WordBytes, HeaderBytes, Script, IsSuffix;
  }

  /** The writer chain over all runs, at either side: one frame write at a time, for the front message. And as long as
      no posted send runs before the handshake word is issued, which is always so at a server, the byte stream is
      made of the word and whole frames in posting order. */
  lemma WriterChainOverRuns(server: bool, challenge: uint64, pending: seq<Msg>, acts: seq<Action>, greeting: seq<Msg>)
    requires var e := if server then ServerInit(challenge, pending) else ClientInit();
             ValidRun(e, acts, greeting)
    ensures var e := if server then ServerInit(challenge, pending) else ClientInit();
            var f := RunOf(e, acts, greeting);
            && OneFrameAtATime(f.out, f.open)
            && (server || WordIssuedFirst(e, acts, greeting) ==> FramesInOrder(f.out, f.open))
  {
    hide ReaderState, HandshakeState, WriterStream, FreeWriter, OneFrameAtATime, FramesInOrder;
    var e := if server then ServerInit(challenge, pending) else ClientInit();
    InitState(challenge, pending);
    RunKeepsFree(e, acts, greeting);
    var f := RunOf(e, acts, greeting);
    if server {
      ServerIssuesFirst(e, acts, greeting);
    }
    if WordIssuedFirst(e, acts, greeting) {
      RunKeepsState(e, acts, greeting);
    }
    ChainIsExact(f.out, f.open);
  }

  lemma StepAfterFailure(e: Endpoint, act: Action, greeting: seq<Msg>)
    requires FreeWriter(e.out, e.open) && e.out.frameFailed && Enabled(e, act)
    ensures var f := Next(e, act, greeting);
            f.out.frameFailed && f.out.emitted == e.out.emitted && e.out.outgoing <= f.out.outgoing
  {
    hide HeaderBytes, HeaderSize, WordOf, WordBytes, ScrambleWord, Resized;
  }

  /** After a frame write has failed, no later send restarts the chain, over all runs: the queue only grows, and nothing
      more is put on the wire. */
  lemma {:induction false} FailureIsFinal(e: Endpoint, acts: seq<Action>, greeting: seq<Msg>)
    requires FreeState(e) && e.out.frameFailed && ValidRun(e, acts, greeting)
    ensures var f := RunOf(e, acts, greeting);
            f.out.frameFailed && f.out.emitted == e.out.emitted && e.out.outgoing <= f.out.outgoing
    decreases |acts|
  {
    hide ReaderState, HandshakeState, FreeWriter, Next, Enabled;
    if acts != [] {
      StepKeepsFree(e, acts[0], greeting);
      StepAfterFailure(e, acts[0], greeting);
      FailureIsFinal(Next(e, acts[0], greeting), acts[1..], greeting);
    }
  }

  // Sending before the handshake is answered.

  predicate NoneRun(acts: seq<Action>) {
    forall k :: 0 <= k < |acts| ==> !acts[k].RunPosted?
  }

  /** Nothing of any message has been handed to a write. */
  predicate Untouched(w: Writer) {
    w.outgoing == [] && w.emitted == []
  }

  /** A send that has run has left a trace: its frame is still queued, or bytes of it are on the wire. */
  predicate Traced(w: Writer) {
    && (w.frame.WritingHeader? && |w.frame.rest| < 8 ==> w.emitted != [])
    && (w.frame.WritingBody? ==> w.emitted != [])
    && |w.pending| <= |w.posted|
    && (Untouched(w) <==> |w.pending| == |w.posted|)
  }

  lemma RunPostedTraced(w: Writer)
    requires WriterChain(w) && Traced(w) && w.pending != []
    ensures Traced(RunPostedOf(w)) && !Untouched(RunPostedOf(w))
  {
    hide IsSuffix, HeaderBytes, WordBytes;
    assert w.outgoing == [] ==> |HeaderBytes(w.pending[0])| == 8;
  }

  lemma EmitTraced(w: Writer, count: nat)
    requires WriterChain(w) && Traced(w) && w.frame != NoWrite && 0 < count <= |w.frame.rest|
    ensures Traced(Emit(w, count)) && !Untouched(Emit(w, count)) && !Untouched(w)
  {
    hide IsSuffix, HeaderBytes, WordBytes;
  }

  lemma FrameWrittenTraced(w: Writer)
    requires WriterChain(w) && Traced(w) && w.frame != NoWrite && w.frame.rest == [] && w.outgoing != []
    ensures Traced(FrameWrittenOf(w)) && !Untouched(FrameWrittenOf(w)) && !Untouched(w)
  {
    hide IsSuffix, HeaderBytes, WordBytes;
    assert w.emitted != [];
  }

  lemma TracedStep(e: Endpoint, act: Action)
    requires FreeState(e) && Enabled(e, act) && !e.out.issued && !Next(e, act, []).out.issued
    requires Traced(e.out)
    ensures Traced(Next(e, act, []).out)
    ensures Untouched(Next(e, act, []).out) <==> Untouched(e.out) && !act.RunPosted?
  {
    hide ReaderState, HandshakeState, HeaderSize, HeaderBytes, WordOf, ScrambleWord, WordBytes, Resized, IsSuffix, Emit,
         EmitWord, RunPostedOf, FrameWrittenOf;
    match act
    case RunPosted => RunPostedTraced(e.out);
    case EmitFrame(count) => EmitTraced(e.out, count);
    case FrameWritten => FrameWrittenTraced(e.out);
    case _ =>
  }

  lemma {:induction false} EarlySendFrom(e: Endpoint, acts: seq<Action>)
    requires FreeState(e) && !e.server && Traced(e.out) && ValidRun(e, acts, [])
    requires !RunOf(e, acts, []).out.issued
    ensures Untouched(RunOf(e, acts, []).out) <==> Untouched(e.out) && NoneRun(acts)
    decreases |acts|
  {
    hide FreeState, Next, Enabled, Traced, Untouched;
    if acts != [] {
      var f := Next(e, acts[0], []);
      StepKeepsFree(e, acts[0], []);
      StepKeepsParty(e, acts[0], []);
      IssuedBefore(e, acts);
      IssuedBefore(f, acts[1..]);
      TracedStep(e, acts[0]);
      EarlySendFrom(f, acts[1..]);
      assert NoneRun(acts) <==> !acts[0].RunPosted? && NoneRun(acts[1..]) by {
        assert forall k :: 0 < k < |acts| ==> acts[k] == acts[1..][k - 1];
      }
    }
  }

  lemma {:induction false} IssuedBefore(e: Endpoint, acts: seq<Action>)
    requires ValidRun(e, acts, [])
    ensures e.out.issued ==> RunOf(e, acts, []).out.issued
    decreases |acts|
  {
    hide Next, Enabled;
    if acts != [] && e.out.issued {
      StaysIssued(e, acts[0], []);
      IssuedBefore(Next(e, acts[0], []), acts[1..]);
    }
  }

  /** Over all runs of a client that has not answered yet, its answer will be the first thing handed to a write exactly
      if no posted send has run: posting alone does no harm. */
  lemma EarlySendIff(acts: seq<Action>)
    requires ValidRun(ClientInit(), acts, []) && !RunOf(ClientInit(), acts, []).out.issued
    ensures Untouched(RunOf(ClientInit(), acts, []).out) <==> NoneRun(acts)
  {
    InitState(0, []);
    hide FreeState, WriterStream;
    EarlySendFrom(ClientInit(), acts);
  }

  /** One such case: with a message sent at once, its header is the first thing on the wire, where the server expects
      the answer. */
  lemma EarlySendPrecedesHandshake(m: Msg)
    ensures var e := ClientInit();
            Enabled(e, Post(m)) &&
            var f := Next(e, Post(m), []);
            Enabled(f, RunPosted) &&
            var g := Next(f, RunPosted, []);
            Enabled(g, EmitFrame(8)) && Next(g, EmitFrame(8), []).out.emitted == HeaderBytes(m)
  {
    hide HeaderBytes;
    var g := Next(Next(ClientInit(), Post(m), []), RunPosted, []);
    assert g.out.frame == WritingHeader(HeaderBytes(m));
    assert [] + HeaderBytes(m)[..8] == HeaderBytes(m);
  }

  // What becomes of a client that sent too early.

  /** A frame has got in front of the handshake word: the wire starts with its header, or will. */
  predicate Ahead(w: Writer, open: bool) {
    && w.posted != []
    && var header := HeaderBytes(w.posted[0]);
       if |w.emitted| < 8 then
         && w.emitted == header[..|w.emitted|]
         && (open ==>
               && w.frame == WritingHeader(header[|w.emitted|..])
               && w.outgoing != [] && w.outgoing[0] == w.posted[0]
               && (w.issued ==> w.early))
       else
         w.emitted[..8] == header
  }

  /** It does as soon as a posted send runs before the word is issued. */
  lemma GetsAhead(w: Writer, open: bool)
    requires WriterStream(w, open) && !w.issued && w.pending != []
    ensures Ahead(RunPostedOf(w), open)
  {
    hide Frames, WordBytes, IsSuffix, HeaderBytes;
    assert HeaderBytes(w.posted[0])[..0] == [] && HeaderBytes(w.posted[0])[0..] == HeaderBytes(w.posted[0]);
  }

  lemma EmitStaysAhead(w: Writer, count: nat)
    requires Ahead(w, true) && w.frame != NoWrite && count <= |w.frame.rest|
    ensures Ahead(Emit(w, count), true)
  {
    hide HeaderBytes;
    var header, v := HeaderBytes(w.posted[0]), Emit(w, count);
    if |w.emitted| < 8 {
      var k := |w.emitted|;
      assert header[..k] + header[k..][..count] == header[..k + count];
      assert header[k..][count..] == header[k + count..];
      assert k + count == 8 ==> v.emitted[..8] == header;
    }
  }

  /** And stays there, whatever happens. */
  lemma StaysAhead(e: Endpoint, act: Action)
    requires FreeState(e) && !e.server && Enabled(e, act) && Ahead(e.out, e.open)
    ensures Ahead(Next(e, act, []).out, Next(e, act, []).open)
  {
    hide ReaderState, HandshakeState, HeaderBytes, HeaderSize, WordOf, WordBytes, ScrambleWord, IsSuffix, Emit,
         HeaderRead, BodyRead;
    if act.EmitFrame? {
      EmitStaysAhead(e.out, act.count);
    }
  }
}
