/** The connection object of common/network/NetConnection.h, with its fields and its handlers as methods.
    Every method is proved to make the step of the same name of the endpoint it stands for. */
module Connections {
  import opened Bytes
  import opened Vectors
  import opened Options
  import opened Params
  import opened Messages
  import opened Scramble
  import opened Framing
  import opened Endpoints

  class Connection {
    const server: bool
    const uid: uint32                       // m_id
    var open: bool
    var posted: seq<Msg>                    // sends waiting in the io_context
    var messagesOut: seq<Msg>
    var validationWrite: Option<seq<byte>>
    var frameWrite: FrameWrite
    var reading: Reading
    var readBuffer: seq<byte>
    var tempMessageIn: Msg
    var messagesIn: seq<Msg>                // everything pushed to the incoming queue so far
    var handshakeOut: uint64
    var handshakeIn: uint64
    var handshakeCheck: uint64
    var validations: nat
    ghost var early: bool
    ghost var sends: seq<Msg>
    ghost var emitted: seq<byte>
    ghost var consumed: seq<byte>
    ghost var framed: nat
    ghost var issued: bool
    ghost var frameFailed: bool

    ghost function State(): Endpoint
      reads this
    {
      Endpoint(server, open,
               Writer(posted, messagesOut, validationWrite, frameWrite, early, handshakeOut,
                      sends, emitted, issued, frameFailed),
               Reader(reading, readBuffer, tempMessageIn, messagesIn, consumed, framed),
               handshakeIn, handshakeCheck, validations)
    }

    /** A server connection, with the messages on_client_connect posted, after connect_to_client. */
    constructor ForServer(now: uint64, uid: uint32, welcome: seq<Msg>)
      ensures State() == ServerInit(now, welcome) && this.uid == uid
    {
      server, open := true, true;
      this.uid := uid;
      posted, messagesOut, sends := welcome, [], welcome;
      handshakeOut, handshakeIn, handshakeCheck := now, 0, ScrambleWord(now);
      validationWrite, frameWrite, issued := Some(WordBytes(now)), NoWrite, true;
      reading, readBuffer, tempMessageIn, messagesIn := ReadingValidation, [], Msg(0, 0, []), [];
      validations, emitted, consumed, framed, early, frameFailed := 0, [], [], 0, false, false;
    }

    /** A client connection once its connect has completed. */
    constructor ForClient()
      ensures State() == ClientInit()
    {
      server, open := false, true;
      uid := 0;
      posted, messagesOut, sends := [], [], [];
      handshakeOut, handshakeIn, handshakeCheck := 0, 0, 0;
      validationWrite, frameWrite, issued := None, NoWrite, false;
      reading, readBuffer, tempMessageIn, messagesIn := ReadingValidation, [], Msg(0, 0, []), [];
      validations, emitted, consumed, framed, early, frameFailed := 0, [], [], 0, false, false;
    }

    method Disconnect()
      modifies this
      ensures State() == old(State()).(open := false)
      ensures old(open) ==> State() == Next(old(State()), Endpoints.Action.Disconnect, [])
    {
      open := false;
    }

    method Send(msg: Msg)
      modifies this
      ensures State() == Next(old(State()), Post(msg), []) && open == old(open)
    {
      posted := posted + [msg];
      sends := sends + [msg];
    }

    /** The posted half of Send, run by the io_context. */
    method RunPostedSend()
      requires Enabled(State(), RunPosted)
      modifies this
      ensures State() == Next(old(State()), RunPosted, [])
    {
      var alreadyWriting := messagesOut != [];
      messagesOut := messagesOut + [posted[0]];
      posted := posted[1..];
      if !alreadyWriting {
        WriteFrontHeader();
      }
    }

    method WriteFrontHeader()
      requires messagesOut != []
      modifies this
      ensures State() == old(State()).(out := WriteHeader(old(State()).out))
    {
      frameWrite := WritingHeader(HeaderBytes(messagesOut[0]));
    }

    method OnHeaderWritten()
      requires Enabled(State(), FrameWritten) && frameWrite.WritingHeader?
      modifies this
      ensures State() == Next(old(State()), FrameWritten, [])
    {
      if |messagesOut[0].body| > 0 {
        frameWrite, early := WritingBody(messagesOut[0].body), false;
      } else {
        PopAndContinue();
      }
    }

    method OnBodyWritten()
      requires Enabled(State(), FrameWritten) && frameWrite.WritingBody?
      modifies this
      ensures State() == Next(old(State()), FrameWritten, [])
    {
      PopAndContinue();
    }

    method PopAndContinue()
      requires messagesOut != []
      modifies this
      ensures State() == old(State()).(out := NextFrame(old(State()).out))
    {
      messagesOut := messagesOut[1..];
      frameWrite, early := NoWrite, false;
      if messagesOut != [] {
        WriteFrontHeader();
      }
    }

    method OnFrameWriteFailed()
      requires Enabled(State(), FrameWriteFails)
      modifies this
      ensures State() == Next(old(State()), FrameWriteFails, [])
    {
      hide WordOf, WordBytes, ScrambleWord, HeaderBytes, HeaderSize, Need, RunPostedOf, FrameWrittenOf, ReadDoneOf;
      frameWrite, early := NoWrite, false;
      open := false;
      frameFailed := true;
    }

    method OnValidationWritten()
      requires Enabled(State(), ValidationWritten)
      modifies this
      ensures State() == Next(old(State()), ValidationWritten, [])
    {
      validationWrite := None;
      if !server {
        ReadHeader();
      }
    }

    method OnValidationWriteFailed()
      requires Enabled(State(), ValidationWriteFails)
      modifies this
      ensures State() == Next(old(State()), ValidationWriteFails, [])
    {
      validationWrite := None;
      open := false;
    }

    /** Part of the outstanding writes leaves the socket: the handshake word first, then the frame. */
    method Transmit(count: nat) returns (bytes: seq<byte>)
      requires Enabled(State(), EmitFrame(count))
      modifies this
      ensures State() == Next(old(State()), EmitFrame(count), [])
      ensures emitted == old(emitted) + bytes && |bytes| == count
    {
      bytes := frameWrite.rest[..count];
      frameWrite := if frameWrite.WritingHeader? then WritingHeader(frameWrite.rest[count..])
                    else WritingBody(frameWrite.rest[count..]);
      emitted := emitted + bytes;
    }

    method TransmitValidation(count: nat) returns (bytes: seq<byte>)
      requires Enabled(State(), EmitValidation(count))
      modifies this
      ensures State() == Next(old(State()), EmitValidation(count), [])
      ensures emitted == old(emitted) + bytes && |bytes| == count
    {
      bytes := validationWrite.value[..count];
      validationWrite := Some(validationWrite.value[count..]);
      emitted := emitted + bytes;
    }

    method ReceiveChunk(chunk: seq<byte>)
      requires Enabled(State(), Receive(chunk))
      modifies this
      ensures State() == Next(old(State()), Receive(chunk), [])
    {
      readBuffer := readBuffer + chunk;
      consumed := consumed + chunk;
    }

    method ReadHeader()
      modifies this
      ensures State() == old(State()).(inp := Await(old(State()).inp, ReadingHeader))
    {
      reading, readBuffer := ReadingHeader, [];
    }

    /** greeting is what the server's on_client_validated sends on this connection. */
    method OnValidationRead(greeting: seq<Msg>)
      requires Enabled(State(), ReadDone) && reading == ReadingValidation
      modifies this
      ensures State() == Next(old(State()), ReadDone, greeting)
    {
      hide ScrambleWord, WordBytes, WordOf;
      handshakeIn := WordOf(readBuffer);
      framed := |consumed|;
      if !server {
        WriteAnswer();
      } else if handshakeIn == handshakeCheck {
        ClientValidated(greeting);
      } else {
        open := false;
        StopReading();
      }
    }

    method StopReading()
      modifies this
      ensures State() == old(State()).(inp := Await(old(State()).inp, NoRead))
    {
      reading, readBuffer := NoRead, [];
    }

    method WriteAnswer()
      modifies this
      ensures State() == old(State()).(out := Answer(old(State()).out, ScrambleWord(old(handshakeIn))),
                                       inp := Await(old(State()).inp, NoRead))
    {
      hide ScrambleWord, Answer;
      IssueAnswer(ScrambleWord(handshakeIn));
      StopReading();
    }

    method IssueAnswer(word: uint64)
      modifies this
      ensures State() == old(State()).(out := Answer(old(State()).out, word))
    {
      hide WordBytes;
      handshakeOut := word;
      validationWrite, issued, early := Some(WordBytes(word)), true, !frameWrite.NoWrite?;
    }

    method ClientValidated(greeting: seq<Msg>)
      modifies this
      ensures State() == old(State()).(validations := old(validations) + 1, out := Queue(old(State()).out, greeting),
                                       inp := Await(old(State()).inp, ReadingHeader))
    {
      validations := validations + 1;
      SendAll(greeting);
      ReadHeader();
    }

    method SendAll(ms: seq<Msg>)
      modifies this
      ensures State() == old(State()).(out := Queue(old(State()).out, ms))
    {
      for i := 0 to |ms|
        invariant State() == old(State()).(out := Queue(old(State()).out, ms[..i]))
      {
        assert ms[..i + 1] == ms[..i] + [ms[i]];
        Send(ms[i]);
      }
      assert ms[..|ms|] == ms;
    }

    method OnHeaderRead()
      requires Enabled(State(), ReadDone) && reading == ReadingHeader
      modifies this
      ensures State() == Next(old(State()), ReadDone, [])
    {
      var size := HeaderSize(readBuffer);
      tempMessageIn := Msg(readBuffer[0], size, tempMessageIn.body);
      if size > 0 {
        tempMessageIn := tempMessageIn.(body := Resized(tempMessageIn.body, size, 0));
        reading, readBuffer := ReadingBody, [];
      } else {
        AddToIncomingMessageQueue();
      }
    }

    method OnBodyRead()
      requires Enabled(State(), ReadDone) && reading == ReadingBody
      modifies this
      ensures State() == Next(old(State()), ReadDone, [])
    {
      tempMessageIn := tempMessageIn.(body := readBuffer);
      AddToIncomingMessageQueue();
    }

    method AddToIncomingMessageQueue()
      modifies this
      ensures State() == old(State()).(inp := Deliver(old(State()).inp, old(tempMessageIn)))
    {
      messagesIn := messagesIn + [tempMessageIn];
      framed := |consumed|;
      ReadHeader();
    }

    method OnReadFailed()
      requires Enabled(State(), ReadFails)
      modifies this
      ensures State() == Next(old(State()), ReadFails, [])
    {
      reading := NoRead;
      open := false;
    }
  }
}
