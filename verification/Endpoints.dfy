/** One side of a connection, common/network/NetConnection.h: its state and its completion handlers.

    Every handler posted to the io_context is one atomic step. The bytes of an outstanding write leave the
    socket, and those of an outstanding read arrive, in chunks of any size; the handler runs once the full
    count is through. Writes are serviced in the order in which they were issued, so the handshake word
    precedes the frames. */
module Endpoints {
  import opened Bytes
  import opened Vectors
  import opened Options
  import opened Params
  import opened Messages
  import opened Scramble
  import opened Framing

  /** The frame write that is outstanding, with the bytes not yet on the wire. */
  datatype FrameWrite = NoWrite | WritingHeader(rest: seq<byte>) | WritingBody(rest: seq<byte>)

  /** The sending half. */
  datatype Writer = Writer(
    pending: seq<Msg>,               // sends posted to the io_context and not yet run
    outgoing: seq<Msg>,              // m_qMessagesOut
    validation: Option<seq<byte>>,   // the outstanding write of the handshake word
    frame: FrameWrite,               // the outstanding write of the front frame
    early: bool,                     // that write was issued before the one of the handshake word
    word: uint64,                    // m_nHandshakeOut
    // histories: sends in posting order, bytes put on the wire, whether the word was issued,
    // whether a frame write failed
    posted: seq<Msg>,
    emitted: seq<byte>,
    issued: bool,
    frameFailed: bool)

  /** The read that is outstanding. */
  datatype Reading = NoRead | ReadingValidation | ReadingHeader | ReadingBody

  /** The receiving half. */
  datatype Reader = Reader(
    reading: Reading,
    got: seq<byte>,                  // the bytes the outstanding read has so far
    temp: Msg,                       // m_tempMessageIn
    // histories: messages enqueued for the application, bytes taken off the wire, and how many of these the
    // finished reads account for
    delivered: seq<Msg>,
    consumed: seq<byte>,
    framed: nat)

  datatype Endpoint = Endpoint(
    server: bool,
    open: bool,
    out: Writer,
    inp: Reader,
    handshakeIn: uint64,
    handshakeCheck: uint64,
    validations: nat)                // how often on_client_validated was called

  /** What can happen next at an endpoint. */
  datatype Action =
    | Post(msg: Msg)
    | RunPosted
    | EmitValidation(count: nat)
    | EmitFrame(count: nat)
    | ValidationWritten
    | FrameWritten
    | Receive(chunk: seq<byte>)
    | ReadDone
    | ValidationWriteFails
    | FrameWriteFails
    | ReadFails
    | Disconnect

  function WordBytes(w: uint64): (s: seq<byte>)
    ensures |s| == 8
  {
    ToBytes(w, 8)
  }

  function WordOf(s: seq<byte>): (w: uint64)
    requires |s| == 8
  {
    var n := FromBytes(s);
    assert n < Pow256(8) == 0x1_0000_0000_0000_0000;
    n
  }

  lemma WordRoundTrip(w: uint64)
    ensures WordOf(WordBytes(w)) == w
  {
    assert Pow256(8) == 0x1_0000_0000_0000_0000;
    FromToBytes(w, 8);
  }

  /** The word on the wire: byte i counts 256 to the power i. */
  lemma WordImage(w: uint64, i: nat)
    requires i < 8
    ensures WordBytes(w)[i] == w / Pow256(i) % 256
  {
    LittleEndian(w, 8, i);
  }

  /** The byte count the outstanding read waits for. */
  function Need(r: Reader): nat {
    match r.reading
    case NoRead => 0
    case ReadingValidation => 8
    case ReadingHeader => 8
    case ReadingBody => r.temp.size
  }

  const FRESH_READER: Reader := Reader(ReadingValidation, [], Msg(0, 0, []), [], [], 0)

  /** A server connection just accepted: its word is being written, the client's answer awaited. */
  function ServerInit(challenge: uint64, pending: seq<Msg>): Endpoint {
    Endpoint(true, true,
             Writer(pending, [], Some(WordBytes(challenge)), NoWrite, false, challenge, pending, [], true, false),
             FRESH_READER, 0, ScrambleWord(challenge), 0)
  }

  /** A client connection whose connect completed: it waits for the server's word. */
  function ClientInit(): Endpoint {
    Endpoint(false, true, Writer([], [], None, NoWrite, false, 0, [], [], false, false), FRESH_READER, 0, 0, 0)
  }

  // The writer's handlers. Queue is a series of sends from inside one handler.

  function Queue(w: Writer, ms: seq<Msg>): Writer {
    w.(pending := w.pending + ms, posted := w.posted + ms)
  }

  /** mf_write_header, for a non-empty queue. */
  function WriteHeader(w: Writer): Writer
    requires w.outgoing != []
  {
    w.(frame := WritingHeader(HeaderBytes(w.outgoing[0])))
  }

  /** The lambda that send posts. */
  function RunPostedOf(w: Writer): Writer
    requires w.pending != []
  {
    var queued := w.(pending := w.pending[1..], outgoing := w.outgoing + [w.pending[0]]);
    if w.outgoing == [] then WriteHeader(queued) else queued
  }

  /** The front message is through: pop it and go on with the next one, if any. */
  function NextFrame(w: Writer): Writer
    requires w.outgoing != []
  {
    var popped := w.(outgoing := w.outgoing[1..], frame := NoWrite, early := false);
    if popped.outgoing == [] then popped else WriteHeader(popped)
  }

  /** The completion handlers of mf_write_header and mf_write_body. */
  function FrameWrittenOf(w: Writer): Writer
    requires w.frame != NoWrite && w.outgoing != []
  {
    if w.frame.WritingHeader? && |w.outgoing[0].body| > 0 then
      w.(frame := WritingBody(w.outgoing[0].body), early := false)
    else NextFrame(w)
  }

  function EmitWord(w: Writer, count: nat): Writer
    requires w.validation.Some? && count <= |w.validation.value|
  {
    w.(validation := Some(w.validation.value[count..]), emitted := w.emitted + w.validation.value[..count])
  }

  function Emit(w: Writer, count: nat): Writer
    requires w.frame != NoWrite && count <= |w.frame.rest|
  {
    w.(frame := if w.frame.WritingHeader? then WritingHeader(w.frame.rest[count..])
                else WritingBody(w.frame.rest[count..]),
       emitted := w.emitted + w.frame.rest[..count])
  }

  /** mf_write_validation with the answer to the server's word. */
  function Answer(w: Writer, word: uint64): Writer {
    w.(word := word, validation := Some(WordBytes(word)), issued := true, early := !w.frame.NoWrite?)
  }

  // The reader's handlers.

  function Accept(r: Reader, chunk: seq<byte>): Reader {
    r.(got := r.got + chunk, consumed := r.consumed + chunk)
  }

  /** mf_read_header, or the end of reading. */
  function Await(r: Reader, reading: Reading): Reader {
    r.(reading := reading, got := [])
  }

  /** mf_add_to_incomming_message_queue: enqueue m_tempMessageIn and read the next header. */
  function Deliver(r: Reader, m: Msg): Reader {
    r.(temp := m, delivered := r.delivered + [m], framed := |r.consumed|, reading := ReadingHeader, got := [])
  }

  /** The completion handler of mf_read_header; a size of zero leaves the old body in place. */
  function HeaderRead(r: Reader): Reader
    requires |r.got| == 8
  {
    var size := HeaderSize(r.got);
    if size > 0 then r.(temp := Msg(r.got[0], size, Resized(r.temp.body, size, 0)), reading := ReadingBody, got := [])
    else Deliver(r, Msg(r.got[0], size, r.temp.body))
  }

  /** The completion handler of mf_read_body. */
  function BodyRead(r: Reader): Reader {
    Deliver(r, r.temp.(body := r.got))
  }

  // The handlers that touch both halves.

  /** The completion handler of mf_write_validation. */
  function ValidationWrittenOf(e: Endpoint): Endpoint {
    var written := e.(out := e.out.(validation := None));
    if e.server then written else written.(inp := Await(e.inp, ReadingHeader))
  }

  /** The completion handler of mf_read_validation; greeting is what on_client_validated sends. */
  function ValidationRead(e: Endpoint, greeting: seq<Msg>): Endpoint
    requires |e.inp.got| == 8
  {
    var word := WordOf(e.inp.got);
    var read := e.inp.(framed := |e.inp.consumed|);
    if e.server then
      if word == e.handshakeCheck then
        e.(handshakeIn := word, validations := e.validations + 1, out := Queue(e.out, greeting),
           inp := Await(read, ReadingHeader))
      else
        e.(handshakeIn := word, open := false, inp := Await(read, NoRead))
    else
      e.(handshakeIn := word, out := Answer(e.out, ScrambleWord(word)), inp := Await(read, NoRead))
  }

  function ReadDoneOf(e: Endpoint, greeting: seq<Msg>): Endpoint
    requires e.inp.reading != NoRead && |e.inp.got| == Need(e.inp)
  {
    match e.inp.reading
    case ReadingValidation => ValidationRead(e, greeting)
    case ReadingHeader => e.(inp := HeaderRead(e.inp))
    case ReadingBody => e.(inp := BodyRead(e.inp))
    case NoRead => e
  }

  // The transition function, and when each action can happen.

  predicate Enabled(e: Endpoint, act: Action) {
    match act
    case Post(_) => true
    case RunPosted => e.out.pending != []
    case EmitValidation(count) =>
      e.open && !e.out.early && e.out.validation.Some? && 0 < count <= |e.out.validation.value|
    case EmitFrame(count) =>
      && e.open && (e.out.early || (e.out.validation.Some? ==> e.out.validation.value == []))
      && e.out.frame != NoWrite && 0 < count <= |e.out.frame.rest|
    case ValidationWritten => e.out.validation == Some([])
    case FrameWritten => e.out.frame != NoWrite && e.out.frame.rest == [] && e.out.outgoing != []
    case Receive(chunk) =>
      e.open && e.inp.reading != NoRead && 0 < |chunk| && |e.inp.got| + |chunk| <= Need(e.inp)
    case ReadDone => e.inp.reading != NoRead && |e.inp.got| == Need(e.inp)
    case ValidationWriteFails => e.out.validation.Some? && e.out.validation.value != []
    case FrameWriteFails => e.out.frame != NoWrite && e.out.frame.rest != []
    case ReadFails => e.inp.reading != NoRead && |e.inp.got| < Need(e.inp)
    case Disconnect => e.open
  }

  function Next(e: Endpoint, act: Action, greeting: seq<Msg>): Endpoint
    requires Enabled(e, act)
  {
    match act
    case Post(m) => e.(out := Queue(e.out, [m]))
    case RunPosted => e.(out := RunPostedOf(e.out))
    case EmitValidation(count) => e.(out := EmitWord(e.out, count))
    case EmitFrame(count) => e.(out := Emit(e.out, count))
    case ValidationWritten => ValidationWrittenOf(e)
    case FrameWritten => e.(out := FrameWrittenOf(e.out))
    case Receive(chunk) => e.(inp := Accept(e.inp, chunk))
    case ReadDone => ReadDoneOf(e, greeting)
    case ValidationWriteFails => e.(out := e.out.(validation := None), open := false)
    case FrameWriteFails => e.(out := e.out.(frame := NoWrite, early := false, frameFailed := true), open := false)
    case ReadFails => e.(inp := e.inp.(reading := NoRead), open := false)
    case Disconnect => e.(open := false)
  }

  // What every step keeps at the writing side.

  function Done(w: Writer): nat
    requires |w.outgoing| + |w.pending| <= |w.posted|
  {
    |w.posted| - |w.outgoing| - |w.pending|
  }

  predicate IsSuffix(s: seq<byte>, t: seq<byte>) {
    |s| <= |t| && s == t[|t| - |s|..]
  }

  /** Exactly one frame write is outstanding iff the queue is non-empty, and it is for the front message;
      after a failed frame write the queue stays non-empty and none is outstanding any more. */
  predicate WriterChain(w: Writer) {
    && |w.outgoing| + |w.pending| <= |w.posted|
    && w.posted[Done(w)..] == w.outgoing + w.pending
    && (!w.frameFailed ==> (w.frame == NoWrite <==> w.outgoing == []))
    && (w.frameFailed ==> w.frame == NoWrite && w.outgoing != [])
    && (w.frame.WritingHeader? ==> IsSuffix(w.frame.rest, HeaderBytes(w.outgoing[0])))
    && (w.frame.WritingBody? ==> |w.outgoing[0].body| > 0 && IsSuffix(w.frame.rest, w.outgoing[0].body))
    && (w.validation.Some? ==> w.issued && IsSuffix(w.validation.value, WordBytes(w.word)))
  }

  /** What holds of a writer however early it is used: the chain, which only a closed socket breaks. */
  predicate FreeWriter(w: Writer, open: bool) {
    WriterChain(w) && (w.frameFailed ==> !open)
  }

  /** The bytes of the outstanding writes that are not on the wire yet. */
  function Outstanding(w: Writer): seq<byte> {
    (if w.validation.None? then [] else w.validation.value) + (if w.frame == NoWrite then [] else w.frame.rest)
  }

  /** The current frame, as far as it has been handed to a write. */
  function Current(w: Writer): seq<byte>
    requires w.frame != NoWrite ==> w.outgoing != []
  {
    match w.frame
    case NoWrite => []
    case WritingHeader(_) => HeaderBytes(w.outgoing[0])
    case WritingBody(_) => Frame(w.outgoing[0])
  }

  /** The bytes handed to writes so far: the handshake word, the finished frames, and the current one. */
  function Handed(w: Writer): seq<byte>
    requires WriterChain(w)
  {
    WordBytes(w.word) + Frames(w.posted[..Done(w)]) + Current(w)
  }

  /** Everything that will have been put on the wire once all posted sends are through. */
  function Script(w: Writer): seq<byte> {
    if w.issued then WordBytes(w.word) + Frames(w.posted) else []
  }

  /** No frame has got in front of the handshake word. */
  predicate WordFirst(w: Writer) {
    !w.early && (!w.issued ==> w.outgoing == [] && w.pending == w.posted && w.emitted == [])
  }

  /** The bytes on the wire are a prefix of the handshake word followed by the frames in posting order,
      and while the socket is open nothing is missing from it. */
  predicate WriterStream(w: Writer, open: bool) {
    && FreeWriter(w, open)
    && WordFirst(w)
    && w.emitted <= Script(w)
    && (open && w.issued ==> w.emitted + Outstanding(w) == Handed(w))
  }

  // The chain, handler by handler.

  lemma QueueKeepsChain(w: Writer, ms: seq<Msg>)
    requires WriterChain(w)
    ensures WriterChain(Queue(w, ms)) && Done(Queue(w, ms)) == Done(w)
  {
    hide IsSuffix, HeaderBytes, WordBytes;
    assert Queue(w, ms).posted[Done(w)..] == w.posted[Done(w)..] + ms;
  }

  lemma RunPostedKeepsChain(w: Writer)
    requires WriterChain(w) && w.pending != []
    ensures WriterChain(RunPostedOf(w)) && Done(RunPostedOf(w)) == Done(w)
  {
    hide HeaderBytes, WordBytes;
    var v := RunPostedOf(w);
    assert v.outgoing + v.pending == w.outgoing + w.pending;
    assert w.outgoing != [] ==> v.outgoing[0] == w.outgoing[0];
  }

  lemma EmitWordKeepsChain(w: Writer, count: nat)
    requires WriterChain(w) && w.validation.Some? && count <= |w.validation.value|
    ensures WriterChain(EmitWord(w, count)) && Done(EmitWord(w, count)) == Done(w)
  {
    hide HeaderBytes, WordBytes;
  }

  lemma EmitKeepsChain(w: Writer, count: nat)
    requires WriterChain(w) && w.frame != NoWrite && count <= |w.frame.rest|
    ensures WriterChain(Emit(w, count)) && Done(Emit(w, count)) == Done(w)
  {
    hide HeaderBytes, WordBytes;
  }

  lemma NextFrameKeepsChain(w: Writer)
    requires WriterChain(w) && w.frame != NoWrite
    ensures WriterChain(NextFrame(w)) && Done(NextFrame(w)) == Done(w) + 1
    ensures NextFrame(w).posted[..Done(w) + 1] == w.posted[..Done(w)] + [w.outgoing[0]]
  {
    hide HeaderBytes, WordBytes;
    var v, d := NextFrame(w), Done(w);
    assert w.posted[d] == w.posted[d..][0] == w.outgoing[0];
    assert v.posted[d + 1..] == w.posted[d..][1..];
    assert (w.outgoing + w.pending)[1..] == v.outgoing + v.pending;
  }

  lemma FrameWrittenKeepsChain(w: Writer)
    requires WriterChain(w) && w.frame != NoWrite && w.outgoing != []
    ensures WriterChain(FrameWrittenOf(w))
  {
    hide HeaderBytes, WordBytes, NextFrame;
    NextFrameKeepsChain(w);
  }

  // The byte stream, handler by handler.

  /** A script only grows, at its end, when more is posted. */
  lemma ScriptGrows(w: Writer, ms: seq<Msg>)
    ensures Script(w) <= Script(Queue(w, ms))
  {
    FramesConcat(w.posted, ms);
  }

  lemma QueueKeepsWriter(w: Writer, ms: seq<Msg>, open: bool)
    requires WriterStream(w, open)
    ensures WriterStream(Queue(w, ms), open)
  {
    hide WriterChain, Frames, WordBytes, HeaderBytes;
    var v := Queue(w, ms);
    ScriptGrows(w, ms);
    QueueKeepsChain(w, ms);
    QueueDone(w, ms);
  }

  lemma QueueDone(w: Writer, ms: seq<Msg>)
    requires WriterChain(w)
    ensures WriterChain(Queue(w, ms)) && Handed(Queue(w, ms)) == Handed(w)
  {
    hide Frames, WordBytes, HeaderBytes, IsSuffix;
    QueueKeepsChain(w, ms);
    assert Queue(w, ms).posted[..Done(w)] == w.posted[..Done(w)];
  }

  /** What has been handed to writes is a prefix of the script. */
  lemma HandedInScript(w: Writer)
    requires WriterChain(w) && w.issued
    ensures Handed(w) <= Script(w)
  {
    var d := Done(w);
    assert w.posted == w.posted[..d] + w.posted[d..];
    FramesConcat(w.posted[..d], w.posted[d..]);
    assert w.frame != NoWrite ==> w.posted[d..][0] == w.outgoing[0];
    assert Current(w) <= Frames(w.posted[d..]);
    assert WordBytes(w.word) + Frames(w.posted[..d]) + Frames(w.posted[d..]) == Script(w);
  }

  /** Moving a chunk from the outstanding bytes to the wire. */
  lemma MoveChunk(emitted: seq<byte>, out: seq<byte>, count: nat, handed: seq<byte>, script: seq<byte>)
    requires emitted + out == handed && handed <= script && count <= |out|
    ensures (emitted + out[..count]) + out[count..] == handed
    ensures emitted + out[..count] <= script
  {
    assert (emitted + out[..count]) + out[count..] == emitted + out;
    assert emitted + out[..count] == handed[..|emitted| + count];
  }

  /** Handing further bytes to a write. */
  lemma HandOver(emitted: seq<byte>, out: seq<byte>, more: seq<byte>, handed: seq<byte>)
    requires emitted + out == handed
    ensures emitted + (out + more) == handed + more
  {
  }

  lemma RunPostedKeepsWriter(w: Writer, open: bool)
    requires WriterStream(w, open) && w.pending != [] && w.issued
    ensures WriterStream(RunPostedOf(w), open)
  {
    hide Frames, WordBytes, IsSuffix;
    var v := RunPostedOf(w);
    RunPostedKeepsChain(w);
    if w.outgoing == [] && open {
      var header := HeaderBytes(w.pending[0]);
      assert v.outgoing[0] == w.pending[0];
      assert Outstanding(v) == Outstanding(w) + header;
      assert Handed(v) == Handed(w) + header;
      HandOver(w.emitted, Outstanding(w), header, Handed(w));
    }
  }

  lemma EmitWordKeepsWriter(w: Writer, count: nat)
    requires WriterStream(w, true) && w.validation.Some? && count <= |w.validation.value|
    ensures WriterStream(EmitWord(w, count), true)
  {
    hide Frames, WordBytes, HeaderBytes, IsSuffix;
    var v, out := EmitWord(w, count), Outstanding(w);
    EmitWordKeepsChain(w, count);
    HandedInScript(w);
    MoveChunk(w.emitted, out, count, Handed(w), Script(w));
    assert out[..count] == w.validation.value[..count];
    assert Outstanding(v) == out[count..];
    assert Handed(v) == Handed(w) && Script(v) == Script(w);
  }

  lemma EmitKeepsWriter(w: Writer, count: nat)
    requires WriterStream(w, true) && w.frame != NoWrite && count <= |w.frame.rest|
    requires w.validation.Some? ==> w.validation.value == []
    ensures WriterStream(Emit(w, count), true)
  {
    hide Frames, WordBytes, HeaderBytes, IsSuffix;
    var v, out := Emit(w, count), Outstanding(w);
    EmitKeepsChain(w, count);
    HandedInScript(w);
    assert out == w.frame.rest && Outstanding(v) == out[count..];
    MoveChunk(w.emitted, out, count, Handed(w), Script(w));
    assert Handed(v) == Handed(w) && Script(v) == Script(w);
  }

  lemma HandedNext(w: Writer)
    requires WriterChain(w) && w.frame != NoWrite
    requires Current(w) == Frame(w.outgoing[0])
    requires WriterChain(NextFrame(w))
    ensures Handed(NextFrame(w)) == Handed(w) + Current(NextFrame(w))
  {
    var m, before := w.outgoing[0], w.posted[..Done(w)];
    NextFrameKeepsChain(w);
    FramesConcat(before, [m]);
    assert [m][1..] == [] && Frames([m]) == Frame(m);
    assert WordBytes(w.word) + (Frames(before) + Frame(m)) == Handed(w);
  }

  lemma NextFrameKeepsWriter(w: Writer, open: bool)
    requires WriterStream(w, open) && w.frame != NoWrite && w.frame.rest == []
    requires Current(w) == Frame(w.outgoing[0])
    ensures WriterStream(NextFrame(w), open)
  {
    hide Frames, WordBytes, HeaderBytes, IsSuffix;
    var v := NextFrame(w);
    NextFrameKeepsChain(w);
    assert v.emitted == w.emitted && Script(v) == Script(w);
    if open {
      HandedNext(w);
      assert Outstanding(v) == Outstanding(w) + Current(v);
      HandOver(w.emitted, Outstanding(w), Current(v), Handed(w));
    }
  }

  lemma FrameWrittenKeepsWriter(w: Writer, open: bool)
    requires WriterStream(w, open) && w.frame != NoWrite && w.frame.rest == [] && w.outgoing != []
    ensures WriterStream(FrameWrittenOf(w), open)
  {
    var v, m := FrameWrittenOf(w), w.outgoing[0];
    if w.frame.WritingHeader? && |m.body| > 0 {
      hide Frames, WordBytes, HeaderBytes, IsSuffix;
      FrameWrittenKeepsChain(w);
      assert Outstanding(v) == Outstanding(w) + m.body;
      assert Handed(v) == Handed(w) + m.body;
      if open {
        HandOver(w.emitted, Outstanding(w), m.body, Handed(w));
      }
    } else {
      assert w.frame.WritingHeader? ==> m.body == [] && Frame(m) == HeaderBytes(m);
      NextFrameKeepsWriter(w, open);
    }
  }

  /** A failed write closes the socket; a failed frame write stops the chain with its queue non-empty. */
  lemma FailKeepsWriter(w: Writer, open: bool)
    requires WriterStream(w, open)
    ensures WriterStream(w, false)
    ensures WriterStream(w.(validation := None), false)
    ensures w.frame != NoWrite ==> WriterStream(w.(frame := NoWrite, early := false, frameFailed := true), false)
  {
  }

  lemma FailKeepsChain(w: Writer, open: bool)
    requires FreeWriter(w, open)
    ensures FreeWriter(w, false)
    ensures FreeWriter(w.(validation := None), false)
    ensures w.frame != NoWrite ==> FreeWriter(w.(frame := NoWrite, early := false, frameFailed := true), false)
  {
  }

  /** The answer is the first thing a client hands to a write. */
  lemma AnswerKeepsWriter(w: Writer, word: uint64, open: bool)
    requires WriterStream(w, open) && !w.issued
    ensures WriterStream(Answer(w, word), open)
  {
    hide WordBytes, HeaderBytes, Frames, IsSuffix, WriterChain;
    AnswerKeepsChain(w, word);
    AnswerHands(w, word);
  }

  lemma AnswerHands(w: Writer, word: uint64)
    requires WriterChain(w) && WordFirst(w) && !w.issued && WriterChain(Answer(w, word))
    ensures Outstanding(Answer(w, word)) == WordBytes(word) == Handed(Answer(w, word))
    ensures w.frame == NoWrite && WordBytes(word) <= Script(Answer(w, word))
  {
    NothingQueued(w);
    hide WordBytes, Frames, WriterChain, Handed, Outstanding, Script;
    var v := Answer(w, word);
    WordAlone(v);
    WordOutstanding(v);
    WordStarts(v);
  }

  lemma WordAlone(w: Writer)
    requires WriterChain(w) && w.frame == NoWrite && w.outgoing == [] && w.pending == w.posted
    ensures Handed(w) == WordBytes(w.word)
  {
    NothingFramed();
    hide WordBytes, Frames, WriterChain;
    assert w.posted[..0] == [];
  }

  lemma WordOutstanding(w: Writer)
    requires w.frame == NoWrite && w.validation == Some(WordBytes(w.word))
    ensures Outstanding(w) == WordBytes(w.word)
  {
    hide WordBytes;
  }

  lemma WordStarts(w: Writer)
    requires w.issued
    ensures WordBytes(w.word) <= Script(w)
  {
    hide WordBytes, Frames;
  }

  lemma NothingQueued(w: Writer)
    requires WriterChain(w) && w.outgoing == []
    ensures w.frame == NoWrite && !w.frameFailed
  {
    hide HeaderBytes, WordBytes, IsSuffix;
  }

  lemma NothingFramed()
    ensures Frames([]) == []
  {
  }

  lemma AnswerKeepsChain(w: Writer, word: uint64)
    requires WriterChain(w)
    ensures WriterChain(Answer(w, word))
  {
    hide HeaderBytes;
  }

  /** Once the handshake word is written nothing of it is outstanding. */
  lemma WordWrittenKeepsWriter(w: Writer, open: bool)
    requires WriterStream(w, open) && w.validation == Some([])
    ensures WriterStream(w.(validation := None), open)
  {
    var v := w.(validation := None);
    assert Done(v) == Done(w);
    assert Outstanding(v) == Outstanding(w);
  }
}
