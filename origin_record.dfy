/** What a node knows about one user of the network (Console/Interface/User.cs):
    the messages that user broadcast, keyed by message ID and never
    overwritten; the causal frontier, the first ID not yet received; the
    routing hints `LatestPeer` and `Distance`; and, for the local user only,
    the inbox of private messages. */
module OriginRecord {
  import opened Wrappers
  import opened Wire
  import opened PeerLink

  /** A stored message or private message: its date and its text. */
  datatype Entry = Entry(date: Date, text: string)

  /** `f` is the frontier of the received IDs: every ID below it has been
      received and `f` itself has not; so `f` is the length of the
      contiguous prefix 0..f-1. */
  predicate IsFrontier(ids: set<int>, f: int)
  {
    0 <= f && f !in ids && forall i :: 0 <= i < f ==> i in ids
  }

  /** The list of private messages from `user`; empty if there is none. */
  function Inbox(pms: map<string, seq<Entry>>, user: string): seq<Entry>
  {
    if user in pms then pms[user] else []
  }

  /** `  (id) @<date> -> text` and a newline. */
  function EntryLine(id: int, e: Entry): string
  {
    "   (" + FormatInt(id) + ") @<" + e.date.stamp + "> -> " + e.text + "\n"
  }

  /** The lines of the given messages, in the given order. */
  function EntryLines(ids: seq<int>, messages: map<int, Entry>): string
    requires forall i :: 0 <= i < |ids| ==> ids[i] in messages
    decreases |ids|
  {
    if |ids| == 0 then ""
    else EntryLines(ids[..|ids| - 1], messages) + EntryLine(ids[|ids| - 1], messages[ids[|ids| - 1]])
  }

  /** The static `AllUsers.NbMessages` counter that every new message bumps. */
  class MessageCounter {
    var nbMessages: int

    constructor ()
      ensures nbMessages == 0
    {
      nbMessages := 0;
    }
  }

  class User {
    const username: string
    /** `Messages`: message ID to date and text. */
    var messages: map<int, Entry>
    /** The IDs of `messages` in insertion order, the order in which the
        dictionary enumerates them. */
    var order: seq<int>
    /** `PrivateMessages`: `None` where the dictionary is null. */
    var privateMessages: Option<map<string, seq<Entry>>>
    /** `NextExpectedMessageID`. */
    var nextExpected: int
    var latestPeer: Peer?
    var distance: int

    /** The frontier is exact, and `order` lists every stored ID once. */
    ghost predicate Valid()
      reads this`messages, this`order, this`nextExpected
    {
      IsFrontier(messages.Keys, nextExpected)
      && (forall i, j :: 0 <= i < j < |order| ==> order[i] != order[j])
      && (forall i :: 0 <= i < |order| ==> order[i] in messages)
      && (forall id :: id in messages ==> id in order)
    }

    /** `new User(username, initPMs)`: no messages, frontier 0, and an inbox
        only when `initPMs` is set. */
    constructor (username: string, initPMs: bool)
      ensures Valid()
      ensures this.username == username && messages == map[] && order == [] && nextExpected == 0
      ensures privateMessages == if initPMs then Some(map[]) else None
      ensures latestPeer == null && distance == 0
    {
      this.username := username;
      messages := map[];
      order := [];
      nextExpected := 0;
      privateMessages := if initPMs then Some(map[]) else None;
      latestPeer := null;
      distance := 0;
    }

    /** `AddMessage`: an unseen ID is stored, counted and moves the frontier
        to the first ID from the old frontier on that is still missing; a
        seen ID changes nothing. */
    method AddMessage(messageID: int, dateTime: Date, message: string, counter: MessageCounter)
      returns (isNew: bool)
      requires Valid()
      modifies this`messages, this`order, this`nextExpected, counter`nbMessages
      ensures Valid()
      ensures isNew <==> messageID !in old(messages)
      ensures isNew ==> messages == old(messages)[messageID := Entry(dateTime, message)]
                        && order == old(order) + [messageID]
                        && counter.nbMessages == old(counter.nbMessages) + 1
      ensures !isNew ==> messages == old(messages) && order == old(order)
                         && nextExpected == old(nextExpected)
                         && counter.nbMessages == old(counter.nbMessages)
      ensures old(nextExpected) <= nextExpected && nextExpected !in messages
      ensures forall i :: old(nextExpected) <= i < nextExpected ==> i in messages
    {
      if messageID in messages {
        return false;
      }
      assert messageID !in order;
      messages := messages[messageID := Entry(dateTime, message)];
      order := order + [messageID];
      counter.nbMessages := counter.nbMessages + 1;
      var next := nextExpected;
      while next in messages
        modifies {}
        invariant old(nextExpected) <= next
        invariant forall i :: 0 <= i < next ==> i in messages
        decreases |messages| - next
      {
        CountBelow(messages.Keys, next + 1);
        next := next + 1;
      }
      nextExpected := next;
      return true;
    }

    /** `AddPrivateMessage`: the entry goes to the end of the list for
        `user`, a list created if needed; without an inbox nothing changes. */
    method AddPrivateMessage(user: string, dateTime: Date, content: string)
      modifies this`privateMessages
      ensures old(privateMessages).None? ==> privateMessages == old(privateMessages)
      ensures old(privateMessages).Some? ==>
                privateMessages == Some(old(privateMessages).value[user :=
                                        Inbox(old(privateMessages).value, user) + [Entry(dateTime, content)]])
    {
      match privateMessages {
        case None =>
        case Some(pms) =>
          privateMessages := Some(pms[user := Inbox(pms, user) + [Entry(dateTime, content)]]);
      }
    }

    /** `LatestPeerIPString`: the end point of the latest peer, or "null"
        when there is none or it has been disposed. */
    function LatestPeerText(): (s: string)
      reads this, latestPeer
      ensures latestPeer == null ==> s == "null"
      ensures latestPeer != null && latestPeer.connected ==> s == latestPeer.endpoint
      ensures latestPeer != null && !latestPeer.connected ==> s == "null"
    {
      if latestPeer == null || !latestPeer.connected then "null" else latestPeer.endpoint
    }

    function Header(): string
      reads this, latestPeer
    {
      "From " + username + " via " + LatestPeerText() + " at " + FormatInt(distance) + " nodes away :\n"
    }

    /** `ToString`: a header, one line per message in dictionary order, and
        a closing line. */
    function Describe(): (s: string)
      requires Valid()
      reads this, latestPeer
    {
      Header() + EntryLines(order, messages) + "End from " + username
    }

    method ToString() returns (s: string)
      requires Valid()
      ensures s == Describe()
    {
      var lines := "";
      var k := 0;
      while k < |order|
        invariant 0 <= k <= |order|
        invariant lines == EntryLines(order[..k], messages)
      {
        assert order[..k + 1][..k] == order[..k];
        lines := lines + EntryLine(order[k], messages[order[k]]);
        k := k + 1;
      }
      assert order[..|order|] == order;
      s := Header() + lines + "End from " + username;
    }
  }

  // ---------------------------------------------------------------- lemmas

  /** The frontier of a set of IDs is unique. */
  lemma FrontierUnique(ids: set<int>, f: int, g: int)
    requires IsFrontier(ids, f) && IsFrontier(ids, g)
    ensures f == g
  {
  }

  /** With messages 0, 1, 2, 3, 6, 7 and 10 the frontier is 4, as the
      source's comment says. */
  lemma FrontierExample(f: int)
    ensures IsFrontier({0, 1, 2, 3, 6, 7, 10}, 4)
    ensures IsFrontier({0, 1, 2, 3, 6, 7, 10}, f) ==> f == 4
  {
    var ids: set<int> := {0, 1, 2, 3, 6, 7, 10};
    assert forall i :: 0 <= i < 4 ==> i in ids by {
      forall i | 0 <= i < 4 ensures i in ids {
        assert i == 0 || i == 1 || i == 2 || i == 3;
      }
    }
    if IsFrontier(ids, f) {
      FrontierUnique(ids, f, 4);
    }
  }

  /** The frontier is at most the number of stored messages. */
  lemma FrontierAtMostCount(ids: set<int>, f: int)
    requires IsFrontier(ids, f)
    ensures f <= |ids|
  {
    CountBelow(ids, f);
  }

  /** A set holding every ID below `n` has at least `n` elements. */
  lemma {:induction false} CountBelow(ids: set<int>, n: nat)
    requires forall i :: 0 <= i < n ==> i in ids
    ensures n <= |ids|
    decreases n
  {
    if n > 0 {
      var rest := ids - {n - 1};
      assert forall i :: 0 <= i < n - 1 ==> i in rest;
      CountBelow(rest, n - 1);
      assert ids == rest + {n - 1};
    }
  }
}
