/** The node's client (Console/PtitChat/Client.cs): its list of peers, the
    rumor and status broadcasts that fan a line out to the live peers, the
    pruning of the peers whose connection was lost, and the connection to a
    new peer from an "address:port" text. */
module Gossip {
  import opened Wrappers
  import opened Fields
  import opened Wire
  import opened PeerLink
  import opened OriginRecord
  import opened ChatUser

  /** The bounce a node gives its own rumors. */
  const MY_BOUNCE := 20

  /** `List.RemoveAt(i)`: the element at `i` goes and the later ones move
      down by one. */
  function RemoveAt<T>(s: seq<T>, i: int): (r: seq<T>)
    requires 0 <= i < |s|
    ensures |r| == |s| - 1
    ensures forall k :: 0 <= k < i ==> r[k] == s[k]
    ensures forall k :: i <= k < |r| ==> r[k] == s[k + 1]
  {
    s[..i] + s[i + 1..]
  }

  /** `foreach (var removeIndex in idx) list.RemoveAt(removeIndex)`: the
      removals one after the other, each on the list the previous one left;
      `None` where an index is out of range and `RemoveAt` throws. */
  function RemoveInOrder<T>(s: seq<T>, idx: seq<int>): Option<seq<T>>
    decreases |idx|
  {
    if |idx| == 0 then Some(s)
    else if 0 <= idx[0] < |s| then RemoveInOrder(RemoveAt(s, idx[0]), idx[1..])
    else None
  }

  /** The list the `foreach` over `RemoveAt` leaves: all removals done, or
      the removals before the one whose index was out of range, at which
      `RemoveAt` threw. */
  function RemoveUntilFault<T>(s: seq<T>, idx: seq<int>): (r: seq<T>)
    ensures RemoveInOrder(s, idx).Some? ==> RemoveInOrder(s, idx).value == r
    ensures |r| == |s| - |idx| <==> RemoveInOrder(s, idx).Some?
    ensures |s| - |idx| <= |r| <= |s|
    decreases |idx|
  {
    if |idx| == 0 then s
    else if 0 <= idx[0] < |s| then RemoveUntilFault(RemoveAt(s, idx[0]), idx[1..])
    else s
  }

  /** The indices below `n` that are in `dead`, in ascending order: the
      order in which the broadcasts' `foreach` collects them. */
  function AscendingBelow(dead: set<int>, n: nat): (r: seq<int>)
    ensures Ascending(r) && InRange(r, n)
    decreases n
  {
    if n == 0 then []
    else AscendingBelow(dead, n - 1) + (if n - 1 in dead then [n - 1] else [])
  }

  /** The indices, last first. */
  function Reverse(idx: seq<int>): (r: seq<int>)
    ensures |r| == |idx| && forall k :: 0 <= k < |idx| ==> r[k] == idx[|idx| - 1 - k]
    decreases |idx|
  {
    if |idx| == 0 then [] else [idx[|idx| - 1]] + Reverse(idx[..|idx| - 1])
  }

  /** The elements whose index is not in `dead`, in their order. */
  function Without<T>(s: seq<T>, dead: set<int>): seq<T>
    decreases |s|
  {
    if |s| == 0 then []
    else Without(s[..|s| - 1], dead) + (if |s| - 1 in dead then [] else [s[|s| - 1]])
  }

  /** The indices listed. */
  function Elements(idx: seq<int>): set<int>
  {
    set k | k in idx
  }

  predicate Ascending(idx: seq<int>)
  {
    forall a, b :: 0 <= a < b < |idx| ==> idx[a] < idx[b]
  }

  predicate InRange(idx: seq<int>, n: int)
  {
    forall k :: 0 <= k < |idx| ==> 0 <= idx[k] < n
  }

  predicate Distinct<T(==)>(s: seq<T>)
  {
    forall a, b :: 0 <= a < b < |s| ==> s[a] != s[b]
  }

  /** The indices of the peers whose client is null. */
  ghost function DeadIndices(ps: seq<Peer>): set<int>
    reads set p | p in ps
  {
    set k | 0 <= k < |ps| && !ps[k].connected
  }

  /** The description of each peer. */
  function PeerDescriptions(ps: seq<Peer>): (ds: seq<string>)
    reads set p | p in ps
    ensures |ds| == |ps|
    decreases |ps|
  {
    if |ps| == 0 then [] else PeerDescriptions(ps[..|ps| - 1]) + [ps[|ps| - 1].Describe()]
  }

  /** Where `ConnectToPeer` connects: the text before the first ':' if it is
      an IP address, and the next field read as an Int32 port; `None` when
      there is no ':', or either part does not parse. */
  function ConnectTarget(address: string, isIpAddress: string -> bool): (r: Option<(string, int)>)
    ensures r.Some? ==> (|Split(address, ':')| >= 2 && r.value.0 == Split(address, ':')[0]
                         && isIpAddress(r.value.0) && IsInt32(r.value.1))
  {
    var ipPort := Split(address, ':');
    if |ipPort| < 2 || !isIpAddress(ipPort[0]) then None
    else match ParseInt32(ipPort[1]) {
      case None => None
      case Some(port) => Some((ipPort[0], port))
    }
  }

  /** Whether `ConnectToPeer` gets a connected client: the address parses,
      the port is a TCP port, and the end point answers. */
  predicate Connects(address: string, isIpAddress: string -> bool, reachable: (string, int) -> bool)
  {
    var target := ConnectTarget(address, isIpAddress);
    target.Some? && 0 <= target.value.1 <= 65535 && reachable(target.value.0, target.value.1)
  }

  class Client {
    const username: string
    const port: int
    /** The static `User.All` the client registers its own user in. */
    const users: Directory
    var peers: seq<Peer>

    /** No peer is listed twice: each one is added once, fresh. */
    predicate Valid()
      reads this
    {
      Distinct(peers)
    }

    /** `new Client(username, port)`: no peers, and its own user is added
        to the directory. */
    constructor (username: string, port: int, users: Directory)
      requires users.Valid() && username !in users.all
      modifies users`all, users`names
      ensures Valid() && this.username == username && this.port == port && this.users == users
      ensures peers == []
      ensures users.Valid() && username in users.all && users.all == old(users.all)[username := users.all[username]]
      ensures fresh(users.all[username]) && users.names == old(users.names) + [username]
      ensures users.all[username].messages == map[] && users.all[username].nextExpected == 0
    {
      this.username := username;
      this.port := port;
      this.users := users;
      peers := [];
      new;
      users.Add(username);
    }

    /** `ToString`: one description per peer, '\n' between them, no
        trailing newline, and "" for no peers. */
    method ToString() returns (s: string)
      ensures s == JoinLines(PeerDescriptions(peers))
    {
      s := JoinedLines(PeerDescriptions(peers));
    }

    /** `ConnectToPeer`, with the IP parser, the connection attempt and the
        connected socket's end point given: exactly one fresh, connected peer
        is appended when the connection succeeds; otherwise nothing changes. */
    method ConnectToPeer(address: string, isIpAddress: string -> bool,
                         reachable: (string, int) -> bool, endpoint: string)
      returns (peer: Peer?)
      requires Valid()
      modifies this`peers
      ensures Valid()
      ensures Connects(address, isIpAddress, reachable) ==>
                peer != null && fresh(peer) && peers == old(peers) + [peer]
                && peer.connected && peer.outbox == [] && peer.endpoint == endpoint
      ensures !Connects(address, isIpAddress, reachable) ==> peer == null && peers == old(peers)
    {
      var target := ConnectTarget(address, isIpAddress);
      if target.None? {
        return null;
      }
      var (ip, port) := target.value;
      if !(0 <= port <= 65535) || !reachable(ip, port) {
        return null;
      }
      peer := new Peer(endpoint);
      peers := peers + [peer];
    }

    /** The `foreach` of the broadcasts: `line` goes to every live peer but
        `exclude`, and the indices of the dead ones are collected in
        ascending order. */
    method SendToLive(line: string, exclude: Peer?) returns (removePeers: seq<int>)
      requires Valid()
      modifies peers`outbox
      ensures removePeers == AscendingBelow(old(DeadIndices(peers)), |peers|)
      ensures Elements(removePeers) == old(DeadIndices(peers))
      ensures forall k :: 0 <= k < |peers| ==>
                peers[k].outbox == old(peers[k].outbox)
                                   + if peers[k].connected && peers[k] != exclude then [TextLine(line)] else []
    {
      ghost var dead := DeadIndices(peers);
      removePeers := [];
      var i := 0;
      while i < |peers|
        invariant 0 <= i <= |peers|
        invariant removePeers == AscendingBelow(dead, i)
        invariant forall k :: 0 <= k < i ==>
                    peers[k].outbox == old(peers[k].outbox)
                                       + if peers[k].connected && peers[k] != exclude then [TextLine(line)] else []
        invariant forall k :: i <= k < |peers| ==> peers[k].outbox == old(peers[k].outbox)
      {
        var peer := peers[i];
        assert i in dead <==> !peer.connected;
        if !peer.connected {
          removePeers := removePeers + [i];
        } else if peer != exclude {
          peer.SendPacket(line);
        }
        i := i + 1;
      }
      AscendingBelowElements(dead, |peers|);
      assert (set k | k in dead && 0 <= k < |peers|) == dead;
    }

    /** `foreach (var removeIndex in removePeers) Peers.RemoveAt(removeIndex)`
        as written: each index on the list the previous removal left; `ok`
        is false when an index is out of range and `RemoveAt` throws, and
        the list is then the one the removals before it left. */
    method RemoveEach(removePeers: seq<int>) returns (ok: bool)
      requires Valid()
      modifies this`peers
      ensures Valid()
      ensures ok == RemoveInOrder(old(peers), removePeers).Some?
      ensures peers == RemoveUntilFault(old(peers), removePeers)
    {
      var j := 0;
      while j < |removePeers|
        invariant 0 <= j <= |removePeers|
        invariant Valid()
        invariant RemoveInOrder(peers, removePeers[j..]) == RemoveInOrder(old(peers), removePeers)
        invariant RemoveUntilFault(peers, removePeers[j..]) == RemoveUntilFault(old(peers), removePeers)
      {
        var removeIndex := removePeers[j];
        if !(0 <= removeIndex < |peers|) {
          return false;
        }
        assert removePeers[j..][1..] == removePeers[j + 1..];
        RemoveAtDistinct(peers, removeIndex);
        peers := RemoveAt(peers, removeIndex);
        j := j + 1;
      }
      assert removePeers[j..] == [];
      return true;
    }

    /** The removal of the dead peers, from the last index down so that no
        removal shifts an index still to come. */
    method PruneDead(removePeers: seq<int>)
      requires Valid() && Ascending(removePeers) && InRange(removePeers, |peers|)
      modifies this`peers
      ensures Valid()
      ensures peers == Without(old(peers), Elements(removePeers))
    {
      ReverseRemovalIsWithout(peers, removePeers);
      WithoutDistinct(peers, Elements(removePeers));
      assert removePeers[..|removePeers|] == removePeers;
      var j := |removePeers|;
      while j > 0
        invariant 0 <= j <= |removePeers|
        invariant RemoveInOrder(peers, Reverse(removePeers[..j])) == Some(Without(old(peers), Elements(removePeers)))
      {
        assert removePeers[..j][..j - 1] == removePeers[..j - 1];
        j := j - 1;
        peers := RemoveAt(peers, removePeers[j]);
      }
    }

    /** A broadcast under the lock, as written: `line` goes to every live
        peer but `exclude`, then the collected dead indices are removed in
        ascending order. `ok` is false when a removal throws. With at most
        one dead peer the list is then exactly the live peers; with two or
        more it never is. */
    method Fanout(line: string, exclude: Peer?) returns (ok: bool)
      requires Valid()
      modifies this`peers, peers`outbox
      ensures Valid()
      ensures forall k :: 0 <= k < |old(peers)| ==>
                old(peers)[k].outbox == old(peers[k].outbox)
                                        + if old(peers)[k].connected && old(peers)[k] != exclude then [TextLine(line)] else []
      ensures ok == RemoveInOrder(old(peers), AscendingBelow(old(DeadIndices(peers)), |old(peers)|)).Some?
      ensures peers == RemoveUntilFault(old(peers), AscendingBelow(old(DeadIndices(peers)), |old(peers)|))
      ensures |old(DeadIndices(peers))| <= 1 ==> ok && peers == Without(old(peers), old(DeadIndices(peers)))
      ensures |old(DeadIndices(peers))| >= 2 ==> !(ok && peers == Without(old(peers), old(DeadIndices(peers))))
    {
      ghost var before := peers;
      ghost var dead := DeadIndices(peers);
      var removePeers := SendToLive(line, exclude);
      AscendingElementsCount(removePeers);
      ok := RemoveEach(removePeers);
      if |dead| <= 1 {
        AscendingRemovalWithOneDead(before, removePeers);
      } else {
        AscendingRemovalWithTwoDead(before, removePeers);
      }
    }

    /** `BroadcastRumorAsync`: the bounce is decremented (with Int32
        wrap-around); a negative result sends nothing; otherwise the rumor
        with the new bounce goes to every live peer but the one it came
        from, and the dead peers are removed as `Fanout` states. */
    method BroadcastRumor(originPeer: Peer?, bounce: int, user: string, msgID: int, date: Date, msg: string)
      returns (ok: bool)
      requires Valid() && IsInt32(bounce)
      modifies this`peers, peers`outbox
      ensures Valid()
      ensures Decrement32(bounce) < 0 ==>
                ok && peers == old(peers) && forall k :: 0 <= k < |peers| ==> peers[k].outbox == old(peers[k].outbox)
      ensures Decrement32(bounce) >= 0 ==>
                var line := Encode(Rumor(Decrement32(bounce), user, msgID, date, msg));
                (forall k :: 0 <= k < |old(peers)| ==>
                   old(peers)[k].outbox == old(peers[k].outbox)
                                           + if old(peers)[k].connected && old(peers)[k] != originPeer then [TextLine(line)] else [])
                && ok == RemoveInOrder(old(peers), AscendingBelow(old(DeadIndices(peers)), |old(peers)|)).Some?
                && peers == RemoveUntilFault(old(peers), AscendingBelow(old(DeadIndices(peers)), |old(peers)|))
                && (|old(DeadIndices(peers))| <= 1 ==> ok && peers == Without(old(peers), old(DeadIndices(peers))))
                && (|old(DeadIndices(peers))| >= 2 ==> !(ok && peers == Without(old(peers), old(DeadIndices(peers)))))
    {
      var b := Decrement32(bounce);
      if b < 0 {
        return true;
      }
      ok := Fanout(EncodeRumor(b, user, msgID, date, msg), originPeer);
    }

    /** The first half of `BroadcastMyRumorAsync`: the own user's frontier
        is the new message's ID, and the message is stored through
        `User.NewMessage` with no peer. */
    method RecordMyRumor(message: string, date: Date) returns (msgID: int)
      requires users.Valid() && username in users.all
      modifies users`all, users`names, users.all[username]
      ensures users.Valid() && users.all == old(users.all) && users.names == old(users.names)
      ensures msgID == old(users.all[username].nextExpected)
      ensures users.all[username].messages
                == if msgID in old(users.all[username].messages) then old(users.all[username].messages)
                   else old(users.all[username].messages)[msgID := Entry(date, message)]
    {
      msgID := users.all[username].nextExpected;
      users.NewMessage(null, username, msgID, date, message);
    }

    /** `BroadcastMyRumorAsync`, with the clock's reading given: the message
        is recorded under the own user's frontier and goes with bounce 20 to
        every live peer; the dead peers are removed as `Fanout` states. */
    method BroadcastMyRumor(message: string, date: Date) returns (msgID: int, ok: bool)
      requires Valid() && users.Valid() && username in users.all
      modifies this`peers, peers`outbox, users`all, users`names, users.all[username]
      ensures Valid() && users.Valid() && users.all == old(users.all) && users.names == old(users.names)
      ensures msgID == old(users.all[username].nextExpected)
      ensures users.all[username].messages
                == if msgID in old(users.all[username].messages) then old(users.all[username].messages)
                   else old(users.all[username].messages)[msgID := Entry(date, message)]
      ensures forall k :: 0 <= k < |old(peers)| ==>
                old(peers)[k].outbox == old(peers[k].outbox)
                                        + if old(peers)[k].connected
                                          then [TextLine(Encode(Rumor(MY_BOUNCE, username, msgID, date, message)))] else []
      ensures ok == RemoveInOrder(old(peers), AscendingBelow(old(DeadIndices(peers)), |old(peers)|)).Some?
      ensures peers == RemoveUntilFault(old(peers), AscendingBelow(old(DeadIndices(peers)), |old(peers)|))
      ensures |old(DeadIndices(peers))| <= 1 ==> ok && peers == Without(old(peers), old(DeadIndices(peers)))
      ensures |old(DeadIndices(peers))| >= 2 ==> !(ok && peers == Without(old(peers), old(DeadIndices(peers))))
    {
      msgID := RecordMyRumor(message, date);
      ghost var stored := users.all[username].messages;
      ok := Fanout(EncodeRumor(MY_BOUNCE, username, msgID, date, message), null);
      assert users.all[username].messages == stored;
    }

    /** `BroadcastStatusAsync`, with the status packet given: the same line
        to every live peer, and the dead peers are removed as `Fanout`
        states. */
    method BroadcastStatus(packet: string) returns (ok: bool)
      requires Valid()
      modifies this`peers, peers`outbox
      ensures Valid()
      ensures forall k :: 0 <= k < |old(peers)| ==>
                old(peers)[k].outbox == old(peers[k].outbox)
                                        + if old(peers)[k].connected then [TextLine(packet)] else []
      ensures ok == RemoveInOrder(old(peers), AscendingBelow(old(DeadIndices(peers)), |old(peers)|)).Some?
      ensures peers == RemoveUntilFault(old(peers), AscendingBelow(old(DeadIndices(peers)), |old(peers)|))
      ensures |old(DeadIndices(peers))| <= 1 ==> ok && peers == Without(old(peers), old(DeadIndices(peers)))
      ensures |old(DeadIndices(peers))| >= 2 ==> !(ok && peers == Without(old(peers), old(DeadIndices(peers))))
    {
      ok := Fanout(packet, null);
    }
  }

  // ---------------------------------------------------------------- lemmas

  /** Removing an element of a list of distinct elements keeps them
      distinct. */
  lemma RemoveAtDistinct<T>(s: seq<T>, i: int)
    requires Distinct(s) && 0 <= i < |s|
    ensures Distinct(RemoveAt(s, i))
  {
    var r := RemoveAt(s, i);
    forall a, b | 0 <= a < b < |r| ensures r[a] != r[b] {
      var a' := if a < i then a else a + 1;
      var b' := if b < i then b else b + 1;
      assert r[a] == s[a'] && r[b] == s[b'];
    }
  }

  /** The indices `AscendingBelow` lists are those of `dead` below `n`. */
  lemma {:induction false} AscendingBelowElements(dead: set<int>, n: nat)
    ensures Elements(AscendingBelow(dead, n)) == set k | k in dead && 0 <= k < n
    decreases n
  {
    if n > 0 {
      AscendingBelowElements(dead, n - 1);
      var r := AscendingBelow(dead, n - 1);
      assert AscendingBelow(dead, n) == r + (if n - 1 in dead then [n - 1] else []);
      assert Elements(r + [n - 1]) == Elements(r) + {n - 1};
      assert Elements(r + []) == Elements(r) by { assert r + [] == r; }
    }
  }

  /** An ascending list of indices lists as many indices as it holds. */
  lemma {:induction false} AscendingElementsCount(idx: seq<int>)
    requires Ascending(idx)
    ensures |Elements(idx)| == |idx|
    decreases |idx|
  {
    if |idx| > 0 {
      var init := idx[..|idx| - 1];
      assert Ascending(init);
      AscendingElementsCount(init);
      ElementsSnoc(idx);
      assert idx[|idx| - 1] !in Elements(init);
    }
  }

  /** An element of the kept list is an element at a kept index, and back. */
  lemma {:induction false} WithoutMembers<T>(s: seq<T>, dead: set<int>, x: T)
    ensures x in Without(s, dead) <==> exists i :: 0 <= i < |s| && i !in dead && s[i] == x
    decreases |s|
  {
    if |s| > 0 {
      var init := s[..|s| - 1];
      WithoutMembers(init, dead, x);
      if exists i :: 0 <= i < |s| && i !in dead && s[i] == x {
        var i :| 0 <= i < |s| && i !in dead && s[i] == x;
        if i < |s| - 1 {
          assert init[i] == x;
        }
      }
      if exists i :: 0 <= i < |init| && i !in dead && init[i] == x {
        var i :| 0 <= i < |init| && i !in dead && init[i] == x;
        assert s[i] == x;
      }
    }
  }

  /** Keeping a part of a list of distinct elements keeps them distinct. */
  lemma {:induction false} WithoutDistinct<T>(s: seq<T>, dead: set<int>)
    requires Distinct(s)
    ensures Distinct(Without(s, dead))
    decreases |s|
  {
    if |s| > 0 {
      var init := s[..|s| - 1];
      WithoutDistinct(init, dead);
      if |s| - 1 !in dead {
        WithoutMembers(init, dead, s[|s| - 1]);
        DistinctSnoc(Without(init, dead), s[|s| - 1]);
      }
    }
  }

  lemma DistinctSnoc<T>(w: seq<T>, x: T)
    requires Distinct(w) && x !in w
    ensures Distinct(w + [x])
  {
    forall a, b | 0 <= a < b < |w| + 1 ensures (w + [x])[a] != (w + [x])[b] {
      assert (w + [x])[a] == w[a];
      if b < |w| {
        assert (w + [x])[b] == w[b];
      }
    }
  }

  /** A tail that starts at or after every dead index is kept whole. */
  lemma {:induction false} WithoutAppendHigh<T>(a: seq<T>, b: seq<T>, dead: set<int>)
    requires forall d :: d in dead ==> d < |a|
    ensures Without(a + b, dead) == Without(a, dead) + b
    decreases |b|
  {
    if |b| == 0 {
      assert a + b == a;
    } else {
      var init := b[..|b| - 1];
      assert (a + b)[..|a + b| - 1] == a + init;
      WithoutAppendHigh(a, init, dead);
      assert init + [b[|b| - 1]] == b;
    }
  }

  /** An index past the end does not matter. */
  lemma {:induction false} WithoutIgnoresHigh<T>(s: seq<T>, dead: set<int>, k: int)
    requires k >= |s|
    ensures Without(s, dead + {k}) == Without(s, dead)
    decreases |s|
  {
    if |s| > 0 {
      WithoutIgnoresHigh(s[..|s| - 1], dead, k);
    }
  }

  /** Removing index `l` from a list is keeping every index but `l`, and so
      composes with keeping the indices below it. */
  lemma RemoveAtWithout<T>(s: seq<T>, l: int, dead: set<int>)
    requires 0 <= l < |s|
    requires forall d :: d in dead ==> d < l
    ensures Without(RemoveAt(s, l), dead) == Without(s, dead + {l})
  {
    assert RemoveAt(s, l) == s[..l] + s[l + 1..];
    WithoutAppendHigh(s[..l], s[l + 1..], dead);
    assert s == s[..l + 1] + s[l + 1..];
    WithoutAppendHigh(s[..l + 1], s[l + 1..], dead + {l});
    assert s[..l + 1][..l] == s[..l];
    WithoutIgnoresHigh(s[..l], dead, l);
  }

  /** Removing ascending indices from the last one down removes exactly the
      elements at those indices, keeping the order of the others. */
  lemma {:induction false} ReverseRemovalIsWithout<T>(s: seq<T>, idx: seq<int>)
    requires Ascending(idx) && InRange(idx, |s|)
    ensures RemoveInOrder(s, Reverse(idx)) == Some(Without(s, Elements(idx)))
    decreases |idx|
  {
    if |idx| == 0 {
      WithoutNone(s);
      assert Elements(idx) == {};
    } else {
      var l := idx[|idx| - 1];
      var init := idx[..|idx| - 1];
      assert Ascending(init) && InRange(init, |s| - 1) && forall d :: d in init ==> d < l;
      RemoveLastFirst(s, idx);
      ReverseRemovalIsWithout(RemoveAt(s, l), init);
      RemoveAtWithout(s, l, Elements(init));
      ElementsSnoc(idx);
    }
  }

  lemma ElementsSnoc(idx: seq<int>)
    requires |idx| > 0
    ensures Elements(idx[..|idx| - 1]) + {idx[|idx| - 1]} == Elements(idx)
  {
    assert idx == idx[..|idx| - 1] + [idx[|idx| - 1]];
  }

  /** Removing the indices last first starts with the last one. */
  lemma RemoveLastFirst<T>(s: seq<T>, idx: seq<int>)
    requires |idx| > 0 && 0 <= idx[|idx| - 1] < |s|
    ensures RemoveInOrder(s, Reverse(idx)) == RemoveInOrder(RemoveAt(s, idx[|idx| - 1]), Reverse(idx[..|idx| - 1]))
  {
    var r := Reverse(idx);
    assert r == [idx[|idx| - 1]] + Reverse(idx[..|idx| - 1]);
    assert r[1..] == Reverse(idx[..|idx| - 1]);
  }

  lemma {:induction false} WithoutNone<T>(s: seq<T>)
    ensures Without(s, {}) == s
    decreases |s|
  {
    if |s| > 0 {
      WithoutNone(s[..|s| - 1]);
    }
  }

  /** The loop as written keeps the promise that dead peers are deleted, and
      keeps the live ones in order, when at most one peer is dead. */
  lemma AscendingRemovalWithOneDead<T>(s: seq<T>, idx: seq<int>)
    requires |idx| <= 1 && InRange(idx, |s|)
    ensures RemoveInOrder(s, idx) == Some(Without(s, Elements(idx)))
  {
    ReverseRemovalIsWithout(s, idx);
    assert Reverse(idx) == idx;
  }

  /** With two or more dead peers the loop as written fails: every removal
      after the first hits an index shifted down by one, so the second dead
      peer survives (or an index is out of range and `RemoveAt` throws). */
  lemma AscendingRemovalWithTwoDead<T>(s: seq<T>, idx: seq<int>)
    requires Distinct(s) && Ascending(idx) && InRange(idx, |s|) && |idx| >= 2
    ensures RemoveInOrder(s, idx) != Some(Without(s, Elements(idx)))
    ensures RemoveInOrder(s, idx).Some? ==> s[idx[1]] in RemoveInOrder(s, idx).value
  {
    var t := RemoveAt(s, idx[0]);
    var p := idx[1] - 1;
    assert t[p] == s[idx[1]];
    assert RemoveInOrder(s, idx) == RemoveInOrder(t, idx[1..]);
    var r := RemoveInOrder(t, idx[1..]);
    if r.Some? {
      RemovalKeepsBelow(t, idx[1..], p);
      assert s[idx[1]] in r.value;
      WithoutMembers(s, Elements(idx), s[idx[1]]);
      assert s[idx[1]] !in Without(s, Elements(idx));
    }
  }

  /** Removals at indices above `p` leave the element at `p` in place. */
  lemma {:induction false} RemovalKeepsBelow<T>(t: seq<T>, idx: seq<int>, p: int)
    requires 0 <= p < |t|
    requires forall k :: 0 <= k < |idx| ==> idx[k] > p
    ensures RemoveInOrder(t, idx).Some? ==> p < |RemoveInOrder(t, idx).value| && RemoveInOrder(t, idx).value[p] == t[p]
    decreases |idx|
  {
    if |idx| > 0 && 0 <= idx[0] < |t| {
      RemovalKeepsBelow(RemoveAt(t, idx[0]), idx[1..], p);
    }
  }

  /** Dead peers at 0 and 1 of three: the loop removes the first, then the
      live peer that moved to index 1, and keeps the second dead one. */
  lemma AdjacentDeadExample()
    ensures RemoveInOrder([10, 11, 12], [0, 1]) == Some([11])
    ensures Without([10, 11, 12], {0, 1}) == [12]
  {
    assert RemoveAt([10, 11, 12], 0) == [11, 12];
    assert RemoveAt([11, 12], 1) == [11];
    assert [10, 11, 12][..2] == [10, 11];
    assert [10, 11, 12][..2][..1] == [10];
    assert [10, 11, 12][..2][..1][..0] == [];
  }

  /** Dead peers at 0 and 2 of three: after the first removal index 2 is out
      of range and `RemoveAt` throws. */
  lemma OutOfRangeExample()
    ensures RemoveInOrder([10, 11, 12], [0, 2]) == None
  {
    assert RemoveAt([10, 11, 12], 0) == [11, 12];
  }

  /** The peers left after a broadcast are exactly the live ones. */
  lemma PrunedAreLive(ps: seq<Peer>, p: Peer)
    ensures p in Without(ps, DeadIndices(ps)) <==> p in ps && p.connected
  {
    WithoutMembers(ps, DeadIndices(ps), p);
  }

  /** The bounce of a rumor that arrives with bounce 0 becomes -1 and the
      rumor stops; Int32's smallest bounce wraps to the largest one. */
  lemma BounceRule(bounce: int)
    requires IsInt32(bounce)
    ensures Decrement32(bounce) < 0 <==> INT32_MIN < bounce <= 0
    ensures bounce == INT32_MIN ==> Decrement32(bounce) == INT32_MAX
  {
  }

  /** A connection is only attempted to an address of the form
      "ip:port" whose port is an Int32 in 0..65535. */
  lemma ConnectsNeedsPort(address: string, isIpAddress: string -> bool, reachable: (string, int) -> bool)
    requires Connects(address, isIpAddress, reachable)
    ensures ':' in address
    ensures exists port :: 0 <= port <= 65535 && ParseInt32(Split(address, ':')[1]) == Some(port)
  {
    var ipPort := Split(address, ':');
    if ':' !in address {
      SplitNoSeparator(address, ':');
    }
    var port := ConnectTarget(address, isIpAddress).value.1;
    assert ParseInt32(ipPort[1]) == Some(port);
  }
}
