/** Reassembling a received file from its chunks, which may arrive in any
    order (Console/PtitChat/File.cs). Disk output is abstracted: the bytes
    a reconstruction writes are returned, and whether the write succeeds
    is a parameter. */
module FileAssembly {
  import opened Wire
  import opened PeerLink
  import opened OriginRecord

  /** The chunks held so far, by chunk ID. */
  type ChunkMap = map<int, seq<byte>>

  /** One chunk as it arrives: its ID and its bytes. */
  datatype Arrival = Arrival(id: int, data: seq<byte>)

  /** A file being received: who sends it, how many chunks make it, the
      chunks held, and whether it has been written. */
  datatype FileState = FileState(origin: string, nbChunks: int, chunks: ChunkMap, reconstructed: bool)

  /** The result of handing a chunk over: the new state, whether the file
      was written, and the bytes the write was given. */
  datatype Delivery<S> = Delivery(state: S, ok: bool, written: seq<byte>)

  /** Every chunk ID from 0 to `n - 1` is held; vacuous when `n <= 0`. */
  predicate Complete(chunks: ChunkMap, n: int)
  {
    forall i :: 0 <= i < n ==> i in chunks
  }

  /** Chunks 0 to `n - 1`, concatenated in index order. */
  function Assemble(chunks: ChunkMap, n: int): seq<byte>
    requires Complete(chunks, n)
    decreases n
  {
    if n <= 0 then [] else Assemble(chunks, n - 1) + chunks[n - 1]
  }

  /** `ReconstructFile`: nothing happens while a chunk is missing; otherwise
      the chunks are written in order and, if the write succeeds, the map
      is cleared and the file marked reconstructed. A failed write keeps
      everything as it was. */
  function Reconstruct(f: FileState, writeOk: bool): Delivery<FileState>
  {
    if !Complete(f.chunks, f.nbChunks) then Delivery(f, false, [])
    else
      var bytes := Assemble(f.chunks, f.nbChunks);
      if writeOk then Delivery(f.(chunks := map[], reconstructed := true), true, bytes)
      else Delivery(f, false, bytes)
  }

  /** `File.NewChunk`: a chunk whose ID is held already is dropped; a new
      one is stored and reconstruction is attempted. */
  function Offer(f: FileState, a: Arrival, writeOk: bool): Delivery<FileState>
  {
    if a.id in f.chunks then Delivery(f, false, [])
    else Reconstruct(f.(chunks := f.chunks[a.id := a.data]), writeOk)
  }

  /** What successive arrivals leave in the chunk map while nothing is
      reconstructed: the first chunk with a given ID wins. */
  function Collect(arrivals: seq<Arrival>): ChunkMap
    decreases |arrivals|
  {
    if |arrivals| == 0 then map[]
    else
      var m := Collect(arrivals[..|arrivals| - 1]);
      var a := arrivals[|arrivals| - 1];
      if a.id in m then m else m[a.id := a.data]
  }

  /** The chunks a sender emits, numbered from 0 in order. */
  function Numbered(cs: seq<seq<byte>>): seq<Arrival>
  {
    seq(|cs|, i requires 0 <= i < |cs| => Arrival(i, cs[i]))
  }

  /** The `File` class: one file being received. */
  class FileAssembler {
    const filename: string
    const origin: string
    const nbChunks: int
    var reconstructed: bool
    var chunks: ChunkMap

    ghost function State(): FileState
      reads this
    {
      FileState(origin, nbChunks, chunks, reconstructed)
    }

    constructor (filename: string, origin: string, nbChunks: int)
      ensures this.filename == filename
      ensures State() == FileState(origin, nbChunks, map[], false)
    {
      this.filename := filename;
      this.origin := origin;
      this.nbChunks := nbChunks;
      reconstructed := false;
      chunks := map[];
    }

    /** Checks every ID below `nbChunks`, then writes the chunks byte by
        byte in index order; `writeOk` is whether the write succeeds. */
    method ReconstructFile(writeOk: bool) returns (ok: bool, written: seq<byte>)
      modifies this`chunks, this`reconstructed
      ensures Delivery(State(), ok, written) == Reconstruct(old(State()), writeOk)
    {
      var i := 0;
      while i < nbChunks
        invariant 0 <= i && (i <= nbChunks || i == 0)
        invariant Complete(chunks, i)
      {
        if i !in chunks {
          assert !Complete(chunks, nbChunks);
          return false, [];
        }
        i := i + 1;
      }
      written := [];
      i := 0;
      while i < nbChunks
        invariant 0 <= i && (i <= nbChunks || i == 0)
        invariant written == Assemble(chunks, i)
      {
        var data := chunks[i];
        var j := 0;
        while j < |data|
          invariant 0 <= j <= |data|
          invariant written == Assemble(chunks, i) + data[..j]
        {
          assert data[..j + 1] == data[..j] + [data[j]];
          written := written + [data[j]];
          j := j + 1;
        }
        assert data[..|data|] == data;
        i := i + 1;
      }
      if !writeOk {
        return false, written;
      }
      chunks := map[];
      reconstructed := true;
      ok := true;
    }

    /** Stores a chunk whose ID is new and tries to reconstruct. */
    method NewChunk(chunkID: int, chunkData: seq<byte>, writeOk: bool) returns (ok: bool, written: seq<byte>)
      modifies this`chunks, this`reconstructed
      ensures Delivery(State(), ok, written) == Offer(old(State()), Arrival(chunkID, chunkData), writeOk)
    {
      if chunkID !in chunks {
        chunks := chunks[chunkID := chunkData];
        ok, written := ReconstructFile(writeOk);
      } else {
        ok, written := false, [];
      }
    }
  }

  // ---------------------------------------------------------------- lemmas

  /** Fewer chunks held than the file has can never be complete. */
  lemma FewerChunksIncomplete(chunks: ChunkMap, n: int)
    requires |chunks| < n
    ensures !Complete(chunks, n)
  {
    if Complete(chunks, n) {
      CountBelow(chunks.Keys, n);
    }
  }

  /** A file announced with no chunks at all is written, empty, as soon as
      any chunk arrives for it. */
  lemma NoChunksExpected(f: FileState, a: Arrival)
    requires f.nbChunks <= 0 && a.id !in f.chunks
    ensures Offer(f, a, true)
            == Delivery(f.(chunks := map[], reconstructed := true), true, [])
  {
  }

  /** An empty file is split into no chunk, so no chunk frame is sent. */
  lemma EmptyFileSendsNothing(origin: string, destination: string, fileName: string)
    ensures NbChunks(0) == 0
    ensures FileFrames(origin, destination, fileName, Chunks([]), 0, NbChunks(0)) == []
  {
  }

  /** Every key of the collected map comes from an arrival with that ID
      and those bytes. */
  lemma {:induction false} CollectFrom(arrivals: seq<Arrival>, k: int)
    requires k in Collect(arrivals)
    ensures exists i :: 0 <= i < |arrivals| && arrivals[i] == Arrival(k, Collect(arrivals)[k])
    decreases |arrivals|
  {
    var init := arrivals[..|arrivals| - 1];
    var a := arrivals[|arrivals| - 1];
    if k in Collect(init) && Collect(arrivals)[k] == Collect(init)[k] {
      CollectFrom(init, k);
      var i :| 0 <= i < |init| && init[i] == Arrival(k, Collect(init)[k]);
      assert arrivals[i] == init[i];
    } else {
      assert arrivals[|arrivals| - 1] == Arrival(k, Collect(arrivals)[k]);
    }
  }

  /** Every arriving ID is a key of the collected map. */
  lemma {:induction false} CollectHas(arrivals: seq<Arrival>, i: int)
    requires 0 <= i < |arrivals|
    ensures arrivals[i].id in Collect(arrivals)
    decreases |arrivals|
  {
    var init := arrivals[..|arrivals| - 1];
    if i < |init| {
      CollectHas(init, i);
      assert init[i] == arrivals[i];
    }
  }

  /** Collecting never holds more chunks than arrived. */
  lemma {:induction false} CollectSize(arrivals: seq<Arrival>)
    ensures |Collect(arrivals)| <= |arrivals|
    decreases |arrivals|
  {
    if |arrivals| > 0 {
      CollectSize(arrivals[..|arrivals| - 1]);
    }
  }

  /** A longer run of arrivals holds every ID a prefix holds. */
  lemma CollectGrows(arrivals: seq<Arrival>, k: nat)
    requires k <= |arrivals|
    ensures Collect(arrivals[..k]).Keys <= Collect(arrivals).Keys
  {
    forall id | id in Collect(arrivals[..k])
      ensures id in Collect(arrivals)
    {
      CollectFrom(arrivals[..k], id);
      var i :| 0 <= i < k && arrivals[..k][i] == Arrival(id, Collect(arrivals[..k])[id]);
      CollectHas(arrivals, i);
    }
  }

  /** Arrivals that never give two different byte strings the same ID. */
  predicate Consistent(arrivals: seq<Arrival>)
  {
    forall a, b :: a in arrivals && b in arrivals && a.id == b.id ==> a == b
  }

  /** With no conflicting chunks, the collected map holds exactly the
      arrivals. */
  lemma CollectExactly(arrivals: seq<Arrival>, a: Arrival)
    requires Consistent(arrivals)
    ensures a in arrivals <==> a.id in Collect(arrivals) && Collect(arrivals)[a.id] == a.data
  {
    if a in arrivals {
      var i :| 0 <= i < |arrivals| && arrivals[i] == a;
      CollectHas(arrivals, i);
      CollectFrom(arrivals, a.id);
    }
    if a.id in Collect(arrivals) && Collect(arrivals)[a.id] == a.data {
      CollectFrom(arrivals, a.id);
    }
  }

  /** The chunks held do not depend on the order, or the repetition, of
      arrivals that never conflict. */
  lemma ArrivalOrderIrrelevant(p: seq<Arrival>, q: seq<Arrival>)
    requires Consistent(p)
    requires forall a :: a in p <==> a in q
    ensures Collect(p) == Collect(q)
  {
    assert Consistent(q);
    forall id | id in Collect(p)
      ensures id in Collect(q) && Collect(q)[id] == Collect(p)[id]
    {
      CollectExactly(p, Arrival(id, Collect(p)[id]));
      CollectExactly(q, Arrival(id, Collect(p)[id]));
    }
    forall id | id in Collect(q)
      ensures id in Collect(p)
    {
      CollectExactly(q, Arrival(id, Collect(q)[id]));
      CollectExactly(p, Arrival(id, Collect(q)[id]));
    }
  }

  /** Concatenating one more chunk appends it. */
  lemma {:induction false} ConcatSnoc(cs: seq<seq<byte>>, c: seq<byte>)
    ensures Concat(cs + [c]) == Concat(cs) + c
    decreases |cs|
  {
    if |cs| == 0 {
      assert Concat([c]) == c + Concat([]);
    } else {
      assert (cs + [c])[1..] == cs[1..] + [c];
      ConcatSnoc(cs[1..], c);
    }
  }

  /** A map agreeing with `cs` below `n` assembles to the first `n` chunks
      of `cs`. */
  lemma {:induction false} AssembleIsConcat(m: ChunkMap, cs: seq<seq<byte>>, n: nat)
    requires n <= |cs|
    requires forall i :: 0 <= i < n ==> i in m && m[i] == cs[i]
    ensures Complete(m, n) && Assemble(m, n) == Concat(cs[..n])
    decreases n
  {
    if n > 0 {
      AssembleIsConcat(m, cs, n - 1);
      assert cs[..n] == cs[..n - 1] + [cs[n - 1]];
      ConcatSnoc(cs[..n - 1], cs[n - 1]);
    }
  }

  /** Held chunks that all come from a file's own chunks, once complete,
      assemble to the file. */
  lemma AssembleSentChunks(content: seq<byte>, p: seq<Arrival>)
    requires forall a :: a in p ==> a in Numbered(Chunks(content))
    requires Complete(Collect(p), NbChunks(|content|))
    ensures Assemble(Collect(p), NbChunks(|content|)) == content
  {
    var cs := Chunks(content);
    AssembleNumbered(cs, p);
    ConcatChunks(content);
  }

  /** Held chunks that all come from `cs`, once complete, assemble to the
      concatenation of `cs`. */
  lemma AssembleNumbered(cs: seq<seq<byte>>, p: seq<Arrival>)
    requires forall a :: a in p ==> a in Numbered(cs)
    requires Complete(Collect(p), |cs|)
    ensures Assemble(Collect(p), |cs|) == Concat(cs)
  {
    var m := Collect(p);
    forall i | 0 <= i < |cs|
      ensures i in m && m[i] == cs[i]
    {
      CollectFrom(p, i);
      var j :| 0 <= j < |p| && p[j] == Arrival(i, m[i]);
      NumberedMember(cs, p[j]);
    }
    AssembleIsConcat(m, cs, |cs|);
    assert cs[..|cs|] == cs;
  }

  /** The numbered chunks are the pairs of an index and the chunk there. */
  lemma NumberedMember(cs: seq<seq<byte>>, a: Arrival)
    requires a in Numbered(cs)
    ensures 0 <= a.id < |cs| && a.data == cs[a.id]
  {
  }

  /** Some prefix of arrivals that end complete is the first to complete. */
  lemma {:induction false} FirstComplete(p: seq<Arrival>, n: int)
    requires n >= 1 && Complete(Collect(p), n)
    ensures exists k :: 1 <= k <= |p| && Complete(Collect(p[..k]), n) && !Complete(Collect(p[..k - 1]), n)
    decreases |p|
  {
    if |p| == 0 {
      assert 0 !in Collect(p);
    } else {
      var init := p[..|p| - 1];
      assert p[..|p|] == p;
      if Complete(Collect(init), n) {
        FirstComplete(init, n);
        var k :| 1 <= k <= |init| && Complete(Collect(init[..k]), n) && !Complete(Collect(init[..k - 1]), n);
        assert init[..k] == p[..k] && init[..k - 1] == p[..k - 1];
      }
    }
  }
}
