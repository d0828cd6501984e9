/** The registry of files being received, keyed by file name alone
    (Console/Interface/AllFiles.cs), and what handing it the chunks of a
    file one after another writes. */
module AllFilesRegistry {
  import opened Wire
  import opened PeerLink
  import opened FileAssembly

  /** The entry a chunk for a name finds: the existing one, or a new one
      with that chunk's origin and chunk count. */
  function Start(files: map<string, FileState>, origin: string, filename: string,
                 nbChunks: int): FileState
  {
    if filename in files then files[filename] else FileState(origin, nbChunks, map[], false)
  }

  /** What one entry does with a chunk: a reconstructed file ignores it;
      otherwise the file's own `NewChunk` decides. */
  function Admit(f: FileState, a: Arrival, writeOk: bool): Delivery<FileState>
  {
    if f.reconstructed then Delivery(f, false, []) else Offer(f, a, writeOk)
  }

  /** `AllFiles.NewChunk` on the whole registry: only the entry for the
      chunk's name can change. */
  function Receive(files: map<string, FileState>, origin: string, filename: string,
                   nbChunks: int, a: Arrival, writeOk: bool): (r: Delivery<map<string, FileState>>)
    ensures r.state.Keys == files.Keys + {filename}
    ensures forall n :: n in files && n != filename ==> r.state[n] == files[n]
    ensures filename in files ==> r.state[filename].origin == files[filename].origin
                                  && r.state[filename].nbChunks == files[filename].nbChunks
    ensures filename !in files ==> r.state[filename].origin == origin
                                   && r.state[filename].nbChunks == nbChunks
    ensures filename in files && files[filename].reconstructed ==> r == Delivery(files, false, [])
  {
    var d := Admit(Start(files, origin, filename, nbChunks), a, writeOk);
    assert filename in files && files[filename].reconstructed ==> files[filename := d.state] == files;
    Delivery(files[filename := d.state], d.ok, d.written)
  }

  /** The registry after each chunk of one file is handed over in turn,
      every write succeeding, and the bytes of each successful write. */
  datatype Fed = Fed(files: map<string, FileState>, writes: seq<seq<byte>>)

  function Feed(files: map<string, FileState>, origin: string, filename: string,
                nbChunks: int, arrivals: seq<Arrival>): Fed
    decreases |arrivals|
  {
    if |arrivals| == 0 then Fed(files, [])
    else
      var before := Feed(files, origin, filename, nbChunks, arrivals[..|arrivals| - 1]);
      var d := Receive(before.files, origin, filename, nbChunks, arrivals[|arrivals| - 1], true);
      Fed(d.state, before.writes + if d.ok then [d.written] else [])
  }

  /** The static `AllFiles` class: the files being received, by name. */
  class FileRegistry {
    var all: map<string, FileAssembler>

    /** Each entry carries its own name, so no file sits under two names. */
    ghost predicate Valid()
      reads this
    {
      forall n :: n in all ==> all[n].filename == n
    }

    /** The registry's files as values. */
    ghost function Files(): map<string, FileState>
      reads this, all.Values
    {
      map n | n in all :: all[n].State()
    }

    constructor ()
      ensures Valid() && all == map[]
    {
      all := map[];
    }

    /** Only the name table and the entry for `filename` can change; the
        entry's new state and the result are those `Admit` gives for the
        entry the chunk finds. */
    method NewChunk(origin: string, filename: string, nbChunks: int, chunkID: int,
                    chunkData: seq<byte>, writeOk: bool) returns (ok: bool, written: seq<byte>)
      requires Valid()
      modifies this`all, (set f | f in all.Values && f.filename == filename)
      ensures Valid()
      ensures filename in all && all == old(all)[filename := all[filename]]
      ensures filename in old(all) ==> all[filename] == old(all[filename])
      ensures filename !in old(all) ==> fresh(all[filename])
      ensures Delivery(all[filename].State(), ok, written)
              == Admit(old(Start(Files(), origin, filename, nbChunks)), Arrival(chunkID, chunkData), writeOk)
    {
      if filename !in all {
        var created := new FileAssembler(filename, origin, nbChunks);
        all := all[filename := created];
      }
      var f := all[filename];
      if !f.reconstructed {
        ok, written := f.NewChunk(chunkID, chunkData, writeOk);
      } else {
        ok, written := false, [];
      }
    }
  }

  // ---------------------------------------------------------------- lemmas

  /** While the arrivals so far leave a chunk missing, a new file's entry
      holds exactly what they collect and nothing has been written. */
  lemma {:induction false} FeedBeforeComplete(files: map<string, FileState>, origin: string,
                                              filename: string, n: int, p: seq<Arrival>)
    requires filename !in files
    requires !Complete(Collect(p), n)
    ensures var fed := Feed(files, origin, filename, n, p);
            (|p| > 0 ==> filename in fed.files
                         && fed.files[filename] == FileState(origin, n, Collect(p), false))
            && fed.writes == []
    decreases |p|
  {
    if |p| > 0 {
      var init := p[..|p| - 1];
      CollectGrows(p, |p| - 1);
      assert !Complete(Collect(init), n);
      FeedBeforeComplete(files, origin, filename, n, init);
    }
  }

  /** From the first arrival that completes the file on, the file has been
      written exactly once, with the chunks that completed it. */
  lemma {:induction false} FeedAfterComplete(files: map<string, FileState>, origin: string,
                                             filename: string, n: int, p: seq<Arrival>, k: nat)
    requires filename !in files
    requires 1 <= k <= |p|
    requires Complete(Collect(p[..k]), n) && !Complete(Collect(p[..k - 1]), n)
    ensures var fed := Feed(files, origin, filename, n, p);
            filename in fed.files && fed.files[filename].reconstructed
            && fed.writes == [Assemble(Collect(p[..k]), n)]
            && forall m :: m in files ==> m in fed.files && fed.files[m] == files[m]
    decreases |p|
  {
    var init := p[..|p| - 1];
    if |p| == k {
      assert init == p[..k - 1];
      assert p[..k] == p;
      FeedBeforeComplete(files, origin, filename, n, init);
      FeedOthersUnchanged(files, origin, filename, n, init);
    } else {
      assert init[..k] == p[..k] && init[..k - 1] == p[..k - 1];
      FeedAfterComplete(files, origin, filename, n, init, k);
    }
  }

  /** Entries for other names are never touched. */
  lemma {:induction false} FeedOthersUnchanged(files: map<string, FileState>, origin: string,
                                               filename: string, n: int, p: seq<Arrival>)
    ensures var fed := Feed(files, origin, filename, n, p);
            forall m :: m in files && m != filename ==> m in fed.files && fed.files[m] == files[m]
    decreases |p|
  {
    if |p| > 0 {
      FeedOthersUnchanged(files, origin, filename, n, p[..|p| - 1]);
    }
  }

  /** Fewer arrivals than the announced chunk count never get a new file
      written. */
  lemma FewArrivalsNeverWritten(files: map<string, FileState>, origin: string, filename: string,
                                n: int, p: seq<Arrival>)
    requires filename !in files
    requires |p| < n
    ensures Feed(files, origin, filename, n, p).writes == []
  {
    CollectSize(p);
    FewerChunksIncomplete(Collect(p), n);
    FeedBeforeComplete(files, origin, filename, n, p);
  }

  /** Whatever the order in which the chunks of a non-empty file arrive,
      and however often each is repeated, the registry writes exactly the
      file's content, once, and leaves the other files alone. */
  lemma FileWrittenOnce(content: seq<byte>, files: map<string, FileState>, origin: string,
                        filename: string, arrivals: seq<Arrival>)
    requires filename !in files
    requires |content| > 0
    requires forall a :: a in arrivals <==> a in Numbered(Chunks(content))
    ensures var fed := Feed(files, origin, filename, NbChunks(|content|), arrivals);
            fed.writes == [content]
            && filename in fed.files && fed.files[filename].reconstructed
            && forall m :: m in files ==> m in fed.files && fed.files[m] == files[m]
  {
    var cs := Chunks(content);
    var n := NbChunks(|content|);
    assert Complete(Collect(arrivals), n) by {
      forall i | 0 <= i < n
        ensures i in Collect(arrivals)
      {
        assert Numbered(cs)[i] in Numbered(cs);
        var j :| 0 <= j < |arrivals| && arrivals[j] == Numbered(cs)[i];
        CollectHas(arrivals, j);
      }
    }
    FirstComplete(arrivals, n);
    var k :| 1 <= k <= |arrivals| && Complete(Collect(arrivals[..k]), n)
             && !Complete(Collect(arrivals[..k - 1]), n);
    FeedAfterComplete(files, origin, filename, n, arrivals, k);
    AssembleSentChunks(content, arrivals[..k]);
  }
}
