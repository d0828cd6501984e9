/** One connection to another node (Console/PtitChat/Peer.cs): the two-state
    lifecycle of its TCP client, the packets written to it, the splitting of
    a file into chunks, and the read loop that decodes each incoming line
    and says what it asks the node to do. */
module PeerLink {
  import opened Wrappers
  import opened Fields
  import opened Wire

  const CHUNKSIZE := 8192

  /** The text `ToString` gives for a disposed peer. */
  const NULL_DESCRIPTION := "Peer address <null>"

  /** What is written to the peer's stream: a line (the packet followed by
      '\n'), or raw chunk bytes. */
  datatype Frame = TextLine(text: string) | RawBytes(data: seq<byte>)

  // -------------------------------------------------------------- chunking

  /** `Math.Ceiling(length / CHUNKSIZE)`, in integers. */
  function NbChunks(length: nat): nat
  {
    (length + CHUNKSIZE - 1) / CHUNKSIZE
  }

  /** The chunks `SendFileAsync` reads, in order: `CHUNKSIZE` bytes at a
      time, the last one whatever remains. */
  function Chunks(content: seq<byte>): (cs: seq<seq<byte>>)
    ensures |cs| == NbChunks(|content|)
    ensures forall i :: 0 <= i < |cs| ==> 1 <= |cs[i]| <= CHUNKSIZE
    ensures forall i :: 0 <= i < |cs| - 1 ==> |cs[i]| == CHUNKSIZE
    decreases |content|
  {
    if |content| == 0 then []
    else if |content| <= CHUNKSIZE then [content]
    else
      var rest := Chunks(content[CHUNKSIZE..]);
      assert NbChunks(|content|) == 1 + NbChunks(|content| - CHUNKSIZE);
      [content[..CHUNKSIZE]] + rest
  }

  /** The chunks laid end to end. */
  function Concat(cs: seq<seq<byte>>): seq<byte>
    decreases |cs|
  {
    if |cs| == 0 then [] else cs[0] + Concat(cs[1..])
  }

  /** The frames `SendFileChunkAsync` writes for chunks numbered from
      `firstID`: each chunk's header line, then its bytes. */
  function FileFrames(origin: string, destination: string, fileName: string,
                      cs: seq<seq<byte>>, firstID: int, nbChunks: int): seq<Frame>
    decreases |cs|
  {
    if |cs| == 0 then []
    else
      [TextLine(EncodeFileHeader(origin, destination, fileName, |cs[0]|, firstID, nbChunks)),
       RawBytes(cs[0])]
      + FileFrames(origin, destination, fileName, cs[1..], firstID + 1, nbChunks)
  }

  /** The chunk buffer `ListenAsync` fills: `size` zero bytes, overwritten
      by what one read of the socket delivers, up to `size` bytes. */
  function ChunkBuffer(raw: seq<byte>, size: nat): (b: seq<byte>)
    ensures |b| == size
    ensures forall i :: 0 <= i < size ==> b[i] == if i < |raw| then raw[i] else 0
  {
    if |raw| >= size then raw[..size] else raw + Zeros(size - |raw|)
  }

  function Zeros(n: nat): (z: seq<byte>)
    ensures |z| == n && forall i :: 0 <= i < n ==> z[i] == 0
  {
    seq(n, _ => 0)
  }

  // ------------------------------------------------------------ read loop

  /** One result of `ReadLineAsync`: a line, together with the bytes a raw
      read of the socket would deliver right after it; the end of the
      stream (`null`); or an exception. */
  datatype Incoming = Received(line: string, raw: seq<byte>) | EndOfStream | ReadFailed

  /** What a decoded line asks of the node: store a rumor (and raise
      `RumorReceivedEvent` if it is new), replay every stored rumor,
      handle a private message or a file chunk (stored only when `forUs`,
      its destination being the local user, and raised as an event in any
      case). */
  datatype Note =
    | RumorArrived(bounce: int, user: string, msgID: int, date: Date, msg: string)
    | UpdateRequested
    | PrivateArrived(origin: string, destination: string, date: Date, content: string, forUs: bool)
    | ChunkArrived(origin: string, destination: string, fileName: string, bufferSize: int,
                   chunkID: int, nbChunks: int, data: seq<byte>, forUs: bool)

  /** The effect of one iteration: go on (with at most one note), leave the
      loop (and dispose), or let an exception escape the loop. */
  datatype Outcome = Continue(note: Option<Note>) | Stop | Faulted

  /** Where a run of the loop over a finite input stands at its end. */
  datatype Ending = Listening | Closed | Crashed

  datatype Session = Session(notes: seq<Note>, ending: Ending)

  /** A file header whose buffer size parses but is negative. */
  predicate NegativeHeader(e: Incoming)
  {
    e.Received? && Decode(e.line).Parsed? && Decode(e.line).packet.FileChunkHeader?
    && Decode(e.line).packet.bufferSize < 0
  }

  /** One iteration of `ListenAsync`, with the two modelled escaping
      exceptions (the end of the stream, a negative buffer size) handled: the first
      ends the loop like a read failure, the second skips the line like a
      header that does not parse. */
  function Step(e: Incoming, localUser: string): Outcome
  {
    match e
    case ReadFailed => Stop
    case EndOfStream => Stop
    case Received(line, raw) =>
      match Decode(line)
      case Parsed(Rumor(bounce, user, msgID, date, msg)) =>
        Continue(Some(RumorArrived(bounce, user, msgID, date, msg)))
      case Parsed(Update) => Continue(Some(UpdateRequested))
      case Parsed(PrivateMessage(origin, destination, date, content)) =>
        Continue(Some(PrivateArrived(origin, destination, date, content, destination == localUser)))
      case Parsed(FileChunkHeader(origin, destination, fileName, bufferSize, chunkID, nbChunks)) =>
        if bufferSize < 0 then Continue(None)
        else
          Continue(Some(ChunkArrived(origin, destination, fileName, bufferSize, chunkID, nbChunks,
                                     ChunkBuffer(raw, bufferSize), destination == localUser)))
      case Parsed(Disconnect) => Stop
      case Malformed => Continue(None)
      case Unrecognised => Continue(None)
  }

  /** One iteration of `ListenAsync` as written: at the end of the stream
      `ReadLineAsync` returns null and `data.Split` throws; a negative
      buffer size makes `new byte[bufferSize]` throw. Neither is caught.
      The events raised are taken to have subscribers and the local user
      to have a record, so the null event and missing key are not
      among the exceptions modelled. */
  function StepAsWritten(e: Incoming, localUser: string): Outcome
  {
    if e.EndOfStream? || NegativeHeader(e) then Faulted else Step(e, localUser)
  }

  function NotesOf(n: Option<Note>): seq<Note>
  {
    if n.Some? then [n.value] else []
  }

  /** The loop over a finite input: the notes raised, and whether the loop
      is still waiting for input, has left through `break`, or was ended
      by an exception. */
  function Run(input: seq<Incoming>, localUser: string, asWritten: bool): (r: Session)
    decreases |input|
  {
    if |input| == 0 then Session([], Listening)
    else
      match (if asWritten then StepAsWritten(input[0], localUser) else Step(input[0], localUser))
      case Stop => Session([], Closed)
      case Faulted => Session([], Crashed)
      case Continue(n) =>
        var rest := Run(input[1..], localUser, asWritten);
        Session(NotesOf(n) + rest.notes, rest.ending)
  }

  // ----------------------------------------------------------------- peer

  class Peer {
    /** The remote end point of the TCP client, as text. */
    const endpoint: string
    /** Whether `Client` is non-null. */
    var connected: bool
    /** How many times the reader and the client were closed. */
    var closes: nat
    /** Everything written to the stream, in order. */
    var outbox: seq<Frame>

    /** The client is closed exactly when it has been disposed, and then
        exactly once. */
    predicate Valid()
      reads this
    {
      closes == if connected then 0 else 1
    }

    /** A peer over a connected client. */
    constructor (endpoint: string)
      ensures Valid()
      ensures this.endpoint == endpoint && connected && outbox == []
    {
      this.endpoint := endpoint;
      connected := true;
      closes := 0;
      outbox := [];
    }

    /** `ToString`: the end point, or the sentinel once disposed. */
    function Describe(): (s: string)
      reads this
      ensures endpoint != "null" ==> (s == NULL_DESCRIPTION <==> !connected)
      ensures |s| >= 15 && s[..14] == "Peer address <" && s[|s| - 1] == '>'
      ensures connected ==> s[14..|s| - 1] == endpoint
      ensures !connected ==> s[14..|s| - 1] == "null"
    {
      if connected then
        var s := "Peer address <" + endpoint + ">";
        assert s[14..|s| - 1] == endpoint;
        assert NULL_DESCRIPTION[14..|NULL_DESCRIPTION| - 1] == "null";
        s
      else NULL_DESCRIPTION
    }

    /** Closes the reader and the client and forgets the client; a second
        call changes nothing. */
    method Dispose()
      requires Valid()
      modifies this`connected, this`closes
      ensures Valid() && !connected
      ensures closes == old(closes) + (if old(connected) then 1 else 0)
      ensures Describe() == NULL_DESCRIPTION
    {
      if connected {
        closes := closes + 1;
        connected := false;
      }
    }

    /** `SendPacketAsync(packet)`: the packet and a newline. */
    method SendPacket(packet: string)
      requires connected
      modifies this`outbox
      ensures outbox == old(outbox) + [TextLine(packet)]
    {
      outbox := outbox + [TextLine(packet)];
    }

    /** `SendPacketAsync(header, chunk)`: the header line, then the bytes. */
    method SendPacketWithChunk(header: string, chunk: seq<byte>)
      requires connected
      modifies this`outbox
      ensures outbox == old(outbox) + [TextLine(header), RawBytes(chunk)]
    {
      SendPacket(header);
      outbox := outbox + [RawBytes(chunk)];
    }

    method RequestUpdate()
      requires connected
      modifies this`outbox
      ensures outbox == old(outbox) + [TextLine(Encode(Update))]
    {
      SendPacket(UPDATE);
    }

    method SendRumor(bounce: int, user: string, msgID: int, date: Date, msg: string)
      requires connected
      modifies this`outbox
      ensures outbox == old(outbox) + [TextLine(Encode(Rumor(bounce, user, msgID, date, msg)))]
    {
      SendPacket(EncodeRumor(bounce, user, msgID, date, msg));
    }

    method SendPrivateMessage(origin: string, destination: string, date: Date, content: string)
      requires connected
      modifies this`outbox
      ensures outbox == old(outbox)
                        + [TextLine(Encode(PrivateMessage(origin, destination, date, content)))]
    {
      SendPacket(EncodePrivateMessage(origin, destination, date, content));
    }

    method SendFileChunk(origin: string, destination: string, fileName: string,
                         bufferSize: int, chunkID: int, nbChunks: int, chunk: seq<byte>)
      requires connected
      modifies this`outbox
      ensures outbox == old(outbox)
                        + [TextLine(Encode(FileChunkHeader(origin, destination, fileName,
                                                           bufferSize, chunkID, nbChunks))),
                           RawBytes(chunk)]
    {
      SendPacketWithChunk(EncodeFileHeader(origin, destination, fileName, bufferSize, chunkID, nbChunks),
                          chunk);
    }

    /** `SendFileAsync`, with the file's bytes as `content`: the file name is
        the last '/'-separated part of the path, and the chunks go out with
        IDs 0, 1, ... and the total count. */
    method SendFile(origin: string, destination: string, filePath: string, content: seq<byte>)
      requires connected
      modifies this`outbox
      ensures outbox == old(outbox)
                        + FileFrames(origin, destination, AfterLast(filePath, '/'),
                                     Chunks(content), 0, NbChunks(|content|))
    {
      var fileName := AfterLast(filePath, '/');
      var nbChunks := NbChunks(|content|);
      var chunkID := 0;
      var fsPointer := 0;
      ghost var target := old(outbox) + FileFrames(origin, destination, fileName, Chunks(content), 0, nbChunks);
      assert content[0..] == content;
      while fsPointer != |content|
        invariant 0 <= fsPointer <= |content|
        invariant target == outbox + FileFrames(origin, destination, fileName, Chunks(content[fsPointer..]),
                                                chunkID, nbChunks)
        decreases |content| - fsPointer
      {
        var bufferSize := if |content| - fsPointer < CHUNKSIZE then |content| - fsPointer else CHUNKSIZE;
        var buffer := content[fsPointer..fsPointer + bufferSize];
        ghost var frames := [TextLine(EncodeFileHeader(origin, destination, fileName, bufferSize, chunkID, nbChunks)),
                             RawBytes(buffer)];
        ghost var rest := FileFrames(origin, destination, fileName, Chunks(content[fsPointer + bufferSize..]),
                                     chunkID + 1, nbChunks);
        FileFramesStep(origin, destination, fileName, content, fsPointer, chunkID, nbChunks);
        ghost var before := outbox;
        AppendAssoc(before, frames, rest);
        assert Encode(FileChunkHeader(origin, destination, fileName, bufferSize, chunkID, nbChunks))
               == EncodeFileHeader(origin, destination, fileName, bufferSize, chunkID, nbChunks);
        SendFileChunk(origin, destination, fileName, bufferSize, chunkID, nbChunks, buffer);
        assert target == outbox + rest;
        fsPointer := fsPointer + bufferSize;
        chunkID := chunkID + 1;
      }
      assert content[|content|..] == [];
    }

    /** `ListenAsync` over the given input, with its escaping exceptions
        handled as `Step` says: the notes it raises are those of the
        specification, and once the loop is left the peer is disposed. */
    method Listen(input: seq<Incoming>, localUser: string) returns (notes: seq<Note>)
      requires Valid()
      modifies this`connected, this`closes
      ensures Valid()
      ensures notes == Run(input, localUser, false).notes
      ensures Run(input, localUser, false).ending == Closed ==>
                !connected && closes == old(closes) + (if old(connected) then 1 else 0)
      ensures Run(input, localUser, false).ending != Closed ==>
                connected == old(connected) && closes == old(closes)
    {
      notes := [];
      var i := 0;
      var stop := false;
      while i < |input| && !stop
        invariant 0 <= i <= |input|
        invariant connected == old(connected) && closes == old(closes)
        invariant !stop ==> Run(input, localUser, false)
                            == Session(notes + Run(input[i..], localUser, false).notes,
                                       Run(input[i..], localUser, false).ending)
        invariant stop ==> Run(input, localUser, false) == Session(notes, Closed)
        decreases |input| - i, if stop then 0 else 1
      {
        var outcome := Step(input[i], localUser);
        RunStep(input, i, localUser);
        match outcome {
          case Stop =>
            stop := true;
            assert notes + [] == notes;
          case Continue(n) =>
            assert notes + (NotesOf(n) + Run(input[i + 1..], localUser, false).notes)
                   == notes + NotesOf(n) + Run(input[i + 1..], localUser, false).notes;
            notes := notes + NotesOf(n);
            i := i + 1;
        }
      }
      if stop {
        Dispose();
      } else {
        assert input[|input|..] == [];
        assert notes + [] == notes;
      }
    }
  }

  // ---------------------------------------------------------------- lemmas

  lemma AppendAssoc(a: seq<Frame>, b: seq<Frame>, c: seq<Frame>)
    ensures a + (b + c) == (a + b) + c
  {
  }

  /** Unfolds the handled loop at position `i` of its input. */
  lemma RunStep(input: seq<Incoming>, i: nat, localUser: string)
    requires i < |input|
    ensures var o := Step(input[i], localUser);
            var rest := Run(input[i + 1..], localUser, false);
            (o.Stop? ==> Run(input[i..], localUser, false) == Session([], Closed))
            && (o.Continue? ==> Run(input[i..], localUser, false)
                                == Session(NotesOf(o.note) + rest.notes, rest.ending))
            && !o.Faulted?
  {
    assert input[i..][0] == input[i];
    assert input[i..][1..] == input[i + 1..];
  }

  /** The frames of the file from the pointer on: the next chunk's, then
      those of the rest. */
  lemma FileFramesStep(origin: string, destination: string, fileName: string,
                       content: seq<byte>, p: nat, id: int, nbChunks: int)
    requires p < |content|
    ensures var b := if |content| - p < CHUNKSIZE then |content| - p else CHUNKSIZE;
            FileFrames(origin, destination, fileName, Chunks(content[p..]), id, nbChunks)
            == [TextLine(EncodeFileHeader(origin, destination, fileName, b, id, nbChunks)),
                RawBytes(content[p..p + b])]
               + FileFrames(origin, destination, fileName, Chunks(content[p + b..]), id + 1, nbChunks)
  {
    var b := if |content| - p < CHUNKSIZE then |content| - p else CHUNKSIZE;
    ChunksStep(content, p);
    FileFramesCons(origin, destination, fileName, content[p..p + b], Chunks(content[p + b..]), id, nbChunks);
  }

  /** The frames of one more chunk in front. */
  lemma FileFramesCons(origin: string, destination: string, fileName: string,
                       c: seq<byte>, rest: seq<seq<byte>>, id: int, nbChunks: int)
    ensures FileFrames(origin, destination, fileName, [c] + rest, id, nbChunks)
            == [TextLine(EncodeFileHeader(origin, destination, fileName, |c|, id, nbChunks)), RawBytes(c)]
               + FileFrames(origin, destination, fileName, rest, id + 1, nbChunks)
  {
    assert ([c] + rest)[1..] == rest;
  }

  /** Past the pointer, the next chunk is the next `CHUNKSIZE` bytes or what
      remains, and the chunks after it are those of the rest. */
  lemma ChunksStep(content: seq<byte>, p: nat)
    requires p < |content|
    ensures var b := if |content| - p < CHUNKSIZE then |content| - p else CHUNKSIZE;
            Chunks(content[p..]) == [content[p..p + b]] + Chunks(content[p + b..])
  {
    var t := content[p..];
    if |t| <= CHUNKSIZE {
      assert content[p..p + |t|] == t;
      assert content[p + |t|..] == [];
    } else {
      assert t[..CHUNKSIZE] == content[p..p + CHUNKSIZE];
      assert t[CHUNKSIZE..] == content[p + CHUNKSIZE..];
    }
  }

  /** The chunks are the file: nothing lost, nothing reordered. */
  lemma {:induction false} ConcatChunks(content: seq<byte>)
    ensures Concat(Chunks(content)) == content
    decreases |content|
  {
    if |content| == 0 {
    } else if |content| <= CHUNKSIZE {
      assert Chunks(content)[1..] == [];
      assert content + [] == content;
    } else {
      ConcatChunks(content[CHUNKSIZE..]);
      assert Chunks(content)[1..] == Chunks(content[CHUNKSIZE..]);
      assert content[..CHUNKSIZE] + content[CHUNKSIZE..] == content;
    }
  }

  /** Chunk `k` is the bytes from `k * CHUNKSIZE` up to the next multiple
      or the end of the file. */
  lemma {:induction false} ChunkAt(content: seq<byte>, k: nat)
    requires k < |Chunks(content)|
    ensures k * CHUNKSIZE < |content|
    ensures var hi := if (k + 1) * CHUNKSIZE < |content| then (k + 1) * CHUNKSIZE else |content|;
            Chunks(content)[k] == content[k * CHUNKSIZE..hi]
    decreases k
  {
    if k > 0 {
      var rest := content[CHUNKSIZE..];
      assert Chunks(content)[k] == Chunks(rest)[k - 1];
      ChunkAt(rest, k - 1);
      var lo := (k - 1) * CHUNKSIZE;
      assert lo + CHUNKSIZE == k * CHUNKSIZE;
      assert k * CHUNKSIZE + CHUNKSIZE == (k + 1) * CHUNKSIZE;
      var hi := if k * CHUNKSIZE < |rest| then k * CHUNKSIZE else |rest|;
      assert lo <= hi <= |rest|;
      assert rest[lo..hi] == content[lo + CHUNKSIZE..hi + CHUNKSIZE];
    }
  }

  /** 20000 bytes go out as chunks of 8192, 8192 and 3616 bytes. */
  lemma TwentyThousandBytes(content: seq<byte>)
    requires |content| == 20000
    ensures |Chunks(content)| == 3
    ensures |Chunks(content)[0]| == 8192 && |Chunks(content)[1]| == 8192
            && |Chunks(content)[2]| == 3616
  {
    ChunkAt(content, 2);
  }

  /** The frames of a file: at position 2k the header of chunk k, with the
      chunk's size as buffer size and `firstID + k` as ID; at 2k + 1 its
      bytes. */
  lemma {:induction false} FileFramesAt(origin: string, destination: string, fileName: string,
                                        cs: seq<seq<byte>>, firstID: int, nbChunks: int, k: nat)
    requires k < |cs|
    ensures var ff := FileFrames(origin, destination, fileName, cs, firstID, nbChunks);
            |ff| == 2 * |cs|
            && ff[2 * k] == TextLine(EncodeFileHeader(origin, destination, fileName, |cs[k]|,
                                                      firstID + k, nbChunks))
            && ff[2 * k + 1] == RawBytes(cs[k])
    decreases k
  {
    FileFramesLength(origin, destination, fileName, cs, firstID, nbChunks);
    if k > 0 {
      FileFramesAt(origin, destination, fileName, cs[1..], firstID + 1, nbChunks, k - 1);
      assert 2 * k == 2 + 2 * (k - 1);
    }
  }

  lemma {:induction false} FileFramesLength(origin: string, destination: string, fileName: string,
                                            cs: seq<seq<byte>>, firstID: int, nbChunks: int)
    ensures |FileFrames(origin, destination, fileName, cs, firstID, nbChunks)| == 2 * |cs|
    decreases |cs|
  {
    if |cs| > 0 {
      FileFramesLength(origin, destination, fileName, cs[1..], firstID + 1, nbChunks);
    }
  }

  /** The header a sender writes for chunk `k` of a file, with names free
      of '#' and of the line ends at which `ReadLine` splits, read back by
      the receiving peer as one line together with the bytes sent after it,
      is chunk `k` of `NbChunks` with the chunk's size as buffer size, and
      the buffer holds exactly that chunk. */
  lemma SentChunkIsReceived(origin: string, destination: string, filePath: string,
                            content: seq<byte>, k: nat, localUser: string)
    requires SEP !in origin && SEP !in destination && SEP !in filePath
    requires '\n' !in origin && '\n' !in destination && '\n' !in filePath
    requires '\r' !in origin && '\r' !in destination && '\r' !in filePath
    requires NbChunks(|content|) <= INT64_MAX
    requires k < NbChunks(|content|)
    ensures var cs := Chunks(content);
            var fileName := AfterLast(filePath, '/');
            var header := EncodeFileHeader(origin, destination, fileName, |cs[k]|, k, NbChunks(|content|));
            Step(Received(header, cs[k]), localUser)
            == Continue(Some(ChunkArrived(origin, destination, fileName, |cs[k]|, k,
                                          NbChunks(|content|), cs[k], destination == localUser)))
  {
    var cs := Chunks(content);
    var fileName := AfterLast(filePath, '/');
    AfterLastIsSuffix(filePath, '/');
    var k0 :| 0 <= k0 <= |filePath| && filePath[k0..] == fileName && (k0 == 0 || filePath[k0 - 1] == '/');
    assert SEP !in fileName by {
      assert forall i :: 0 <= i < |fileName| ==> fileName[i] == filePath[k0 + i];
    }
    var p := FileChunkHeader(origin, destination, fileName, |cs[k]|, k, NbChunks(|content|));
    DecodeEncode(p);
    assert ChunkBuffer(cs[k], |cs[k]|) == cs[k];
  }

  /** The handled loop disagrees with the code as written exactly at the
      end of the stream and at a negative buffer size. */
  lemma StepDiffersOnlyThere(e: Incoming, localUser: string)
    ensures StepAsWritten(e, localUser) != Step(e, localUser) <==> e.EndOfStream? || NegativeHeader(e)
  {
  }

  /** The loop is left only on a read failure, the end of the stream, or a
      line that is exactly "DISC"; as written, only on a read failure or
      "DISC". */
  lemma StopsOnlyOnDisconnect(e: Incoming, localUser: string)
    ensures Step(e, localUser) == Stop
            <==> e.ReadFailed? || e.EndOfStream? || (e.Received? && e.line == DISCONNECT)
    ensures StepAsWritten(e, localUser) == Stop
            <==> e.ReadFailed? || (e.Received? && e.line == DISCONNECT)
  {
    if e.Received? {
      DisconnectIsExactLine(e.line);
    }
  }

  /** A line that does not parse, or that no packet type matches, raises no
      note and the loop continues. */
  lemma SkippedLineContinues(line: string, raw: seq<byte>, localUser: string)
    requires Decode(line).Malformed? || Decode(line).Unrecognised?
    ensures Step(Received(line, raw), localUser) == Continue(None)
    ensures StepAsWritten(Received(line, raw), localUser) == Continue(None)
  {
  }

  /** With the exceptions handled, every exit from the loop disposes: a
      run over any input is never ended by an exception, and it is closed
      exactly when some iteration leaves the loop. */
  lemma {:induction false} EveryExitDisposes(input: seq<Incoming>, localUser: string)
    ensures Run(input, localUser, false).ending != Crashed
    ensures Run(input, localUser, false).ending == Closed
            <==> exists i :: 0 <= i < |input| && Step(input[i], localUser) == Stop
    decreases |input|
  {
    if |input| > 0 {
      EveryExitDisposes(input[1..], localUser);
      if Step(input[0], localUser) != Stop {
        if exists i :: 0 <= i < |input[1..]| && Step(input[1..][i], localUser) == Stop {
          var i :| 0 <= i < |input[1..]| && Step(input[1..][i], localUser) == Stop;
          assert Step(input[i + 1], localUser) == Stop;
        }
        if exists i :: 0 <= i < |input| && Step(input[i], localUser) == Stop {
          var i :| 0 <= i < |input| && Step(input[i], localUser) == Stop;
          assert Step(input[1..][i - 1], localUser) == Stop;
        }
      }
    }
  }

  /** As written, a stream that simply ends crashes the loop: the peer is
      never disposed, while the handled loop closes it. */
  lemma EndOfStreamCrashesAsWritten(localUser: string)
    ensures Run([EndOfStream], localUser, true) == Session([], Crashed)
    ensures Run([EndOfStream], localUser, false) == Session([], Closed)
  {
  }

  /** As written, a header announcing a negative buffer size crashes the
      loop; handled, it is skipped and the loop goes on to the next line. */
  lemma NegativeBufferCrashesAsWritten(localUser: string)
    ensures var header := EncodeFileHeader("a", "b", "f", -1, 0, 1);
            Run([Received(header, []), Received(DISCONNECT, [])], localUser, true) == Session([], Crashed)
            && Run([Received(header, []), Received(DISCONNECT, [])], localUser, false) == Session([], Closed)
  {
    var p := FileChunkHeader("a", "b", "f", -1, 0, 1);
    DecodeEncode(p);
    DisconnectIsExactLine(DISCONNECT);
    var input := [Received(Encode(p), []), Received(DISCONNECT, [])];
    assert input[1..] == [Received(DISCONNECT, [])];
  }
}
