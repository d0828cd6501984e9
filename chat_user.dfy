/** The console client's users (Console/PtitChat/User.cs): the same per-user
    message store as `OriginRecord`, but the frontier `NextExpectedMessageID`
    only moves one step, when the message that arrives is exactly the
    expected one; and the static `All` dictionary of every user. */
module ChatUser {
  import opened Fields
  import opened Wire
  import opened PeerLink
  import opened OriginRecord

  /** What the frontier bookkeeping sees of a user: the received IDs and
      `NextExpectedMessageID`. */
  datatype Progress = Progress(seen: set<int>, frontier: int)

  /** One arrival as `AddMessage` handles it: an unseen ID is recorded, and
      the frontier moves by one exactly when the ID is the expected one. */
  function Arrive(p: Progress, id: int): (q: Progress)
    ensures q.seen == p.seen + {id}
    ensures q.frontier == p.frontier || q.frontier == p.frontier + 1
    ensures q.frontier == p.frontier + 1 <==> id !in p.seen && id == p.frontier
  {
    if id in p.seen then p
    else Progress(p.seen + {id}, if id == p.frontier then p.frontier + 1 else p.frontier)
  }

  /** The progress of a fresh user after the given arrivals, in order. */
  function Replay(arrivals: seq<int>): Progress
    decreases |arrivals|
  {
    if |arrivals| == 0 then Progress({}, 0)
    else Arrive(Replay(arrivals[..|arrivals| - 1]), arrivals[|arrivals| - 1])
  }

  /** Every ID below the frontier has been received. */
  predicate BelowSeen(p: Progress)
  {
    0 <= p.frontier && forall i :: 0 <= i < p.frontier ==> i in p.seen
  }

  /** The IDs 0, 1, ..., n-1, in that order. */
  function Upto(n: nat): (r: seq<int>)
    ensures |r| == n && forall i :: 0 <= i < n ==> r[i] == i
  {
    if n == 0 then [] else Upto(n - 1) + [n - 1]
  }

  /** The IDs 0, 1, ..., n-1. */
  function Below(n: nat): (r: set<int>)
    ensures forall i :: i in r <==> 0 <= i < n
  {
    if n == 0 then {} else Below(n - 1) + {n - 1}
  }

  class User {
    const username: string
    var messages: map<int, Entry>
    /** The IDs of `messages` in the order the dictionary enumerates them. */
    var order: seq<int>
    var nextExpected: int
    var latestPeer: Peer?

    /** Every ID below the frontier has been received, and `order` lists
        every stored ID once. */
    ghost predicate Valid()
      reads this`messages, this`order, this`nextExpected
    {
      BelowSeen(Progress(messages.Keys, nextExpected))
      && (forall i, j :: 0 <= i < j < |order| ==> order[i] != order[j])
      && (forall i :: 0 <= i < |order| ==> order[i] in messages)
      && (forall id :: id in messages ==> id in order)
    }

    /** `new User(username)`: no messages and frontier 0. */
    constructor (username: string)
      ensures Valid()
      ensures this.username == username && messages == map[] && order == [] && nextExpected == 0
      ensures latestPeer == null
    {
      this.username := username;
      messages := map[];
      order := [];
      nextExpected := 0;
      latestPeer := null;
    }

    /** `AddMessage`: an unseen ID is stored and bumps the frontier only
        when it is the expected one; a seen ID changes nothing. */
    method AddMessage(messageID: int, dateTime: Date, message: string) returns (isNew: bool)
      requires Valid()
      modifies this`messages, this`order, this`nextExpected
      ensures Valid()
      ensures isNew <==> messageID !in old(messages)
      ensures messages == if isNew then old(messages)[messageID := Entry(dateTime, message)] else old(messages)
      ensures order == old(order) + if isNew then [messageID] else []
      ensures Progress(messages.Keys, nextExpected) == Arrive(Progress(old(messages.Keys), old(nextExpected)), messageID)
    {
      if messageID in messages {
        return false;
      }
      assert messageID !in order;
      messages := messages[messageID := Entry(dateTime, message)];
      order := order + [messageID];
      if messageID == nextExpected {
        nextExpected := nextExpected + 1;
      }
      return true;
    }

    /** `ToString`: a header, one line per message in dictionary order, and
        a closing line. */
    function Describe(): (s: string)
      requires Valid()
      reads this
    {
      "From " + username + " :\n" + EntryLines(order, messages) + "End from " + username
    }

    method ToString() returns (s: string)
      requires Valid()
      ensures s == Describe()
    {
      var lines := "";
      var k := 0;
      while k < |order|
        invariant 0 <= k <= |order|
        invariant lines == EntryLines(order[..k], messages)
      {
        assert order[..k + 1][..k] == order[..k];
        lines := lines + EntryLine(order[k], messages[order[k]]);
        k := k + 1;
      }
      assert order[..|order|] == order;
      s := "From " + username + " :\n" + lines + "End from " + username;
    }
  }

  /** The static `User.All` dictionary and the order it enumerates. */
  class Directory {
    var all: map<string, User>
    var names: seq<string>

    ghost predicate Valid()
      reads this, all.Values
    {
      (forall i, j :: 0 <= i < j < |names| ==> names[i] != names[j])
      && (forall i :: 0 <= i < |names| ==> names[i] in all)
      && (forall n :: n in all ==> n in names)
      && (forall n :: n in all ==> all[n].Valid() && all[n].username == n)
    }

    constructor ()
      ensures Valid() && all == map[] && names == []
    {
      all := map[];
      names := [];
    }

    /** `All.Add(username, new User(username))` in the client's constructor. */
    method Add(user: string)
      requires Valid() && user !in all
      modifies this`all, this`names
      ensures Valid() && user in all && fresh(all[user]) && all == old(all)[user := all[user]]
      ensures names == old(names) + [user]
      ensures all[user].messages == map[] && all[user].nextExpected == 0 && all[user].latestPeer == null
    {
      var u := new User(user);
      all := all[user := u];
      names := names + [user];
    }

    /** The record of `user`, created empty when the name is unknown. */
    method Register(user: string) returns (record: User)
      requires Valid()
      modifies this`all, this`names
      ensures Valid()
      ensures user in all && record == all[user]
      ensures user in old(all) ==> all == old(all) && names == old(names)
      ensures user !in old(all) ==>
                fresh(record) && all == old(all)[user := record] && names == old(names) + [user]
                && record.messages == map[] && record.nextExpected == 0 && record.latestPeer == null
    {
      if user !in all {
        record := new User(user);
        all := all[user := record];
        names := names + [user];
      } else {
        record := all[user];
      }
    }

    /** The message goes to the record; a new message from a peer makes that
        peer the record's `LatestPeer`. */
    method Store(record: User, origin: Peer?, msgID: int, date: Date, msg: string)
      requires Valid() && record in all.Values
      modifies record
      ensures Valid()
      ensures record.messages == if msgID in old(record.messages) then old(record.messages)
                                 else old(record.messages)[msgID := Entry(date, msg)]
      ensures Progress(record.messages.Keys, record.nextExpected)
              == Arrive(Progress(old(record.messages.Keys), old(record.nextExpected)), msgID)
      ensures record.latestPeer == if msgID !in old(record.messages) && origin != null then origin
                                   else old(record.latestPeer)
    {
      var added := record.AddMessage(msgID, date, msg);
      if added && origin != null {
        record.latestPeer := origin;
      }
    }

    /** `NewMessage`: an unknown user is created first, then the message is
        added; `LatestPeer` becomes `origin` only when the message was new
        and `origin` is a peer. */
    method NewMessage(origin: Peer?, user: string, msgID: int, date: Date, msg: string)
      requires Valid()
      modifies this`all, this`names, if user in all then {all[user]} else {}
      ensures Valid()
      ensures user in all && (user !in old(all) ==> fresh(all[user]))
      ensures forall n :: n in old(all) ==> n in all && all[n] == old(all[n])
      ensures all.Keys == old(all.Keys) + {user}
      ensures names == old(names) + (if user in old(all) then [] else [user])
      ensures all[user].messages == if user in old(all) && msgID in old(all[user].messages) then old(all[user].messages)
                                    else (if user in old(all) then old(all[user].messages) else map[])[msgID := Entry(date, msg)]
      ensures user in old(all) ==>
                Progress(all[user].messages.Keys, all[user].nextExpected)
                == Arrive(Progress(old(all[user].messages.Keys), old(all[user].nextExpected)), msgID)
      ensures user !in old(all) ==> Progress(all[user].messages.Keys, all[user].nextExpected) == Arrive(Progress({}, 0), msgID)
      ensures all[user].latestPeer == if (user !in old(all) || msgID !in old(all[user].messages)) && origin != null then origin
                                      else if user in old(all) then old(all[user].latestPeer) else null
    {
      var record := Register(user);
      Store(record, origin, msgID, date, msg);
    }

    /** The description of each listed user. */
    function DescriptionsOf(ns: seq<string>): (ds: seq<string>)
      requires Valid()
      requires forall i :: 0 <= i < |ns| ==> ns[i] in all
      reads this, all.Values
      ensures |ds| == |ns|
      decreases |ns|
    {
      if |ns| == 0 then []
      else DescriptionsOf(ns[..|ns| - 1]) + [all[ns[|ns| - 1]].Describe()]
    }

    /** `AllToString`: one description per user, '\n' between them, no
        trailing newline, and "" for no users. */
    method AllToString() returns (s: string)
      requires Valid()
      ensures s == JoinLines(DescriptionsOf(names))
    {
      s := JoinedLines(DescriptionsOf(names));
    }
  }

  // ---------------------------------------------------------------- lemmas

  /** An arrival keeps every ID below the frontier received. */
  lemma ArriveKeepsBelowSeen(p: Progress, id: int)
    requires BelowSeen(p)
    ensures BelowSeen(Arrive(p, id))
  {
  }

  /** Whatever the arrival order, every ID below the frontier has been
      received. */
  lemma {:induction false} ReplayBelowSeen(arrivals: seq<int>)
    ensures BelowSeen(Replay(arrivals))
    decreases |arrivals|
  {
    if |arrivals| > 0 {
      ReplayBelowSeen(arrivals[..|arrivals| - 1]);
      ArriveKeepsBelowSeen(Replay(arrivals[..|arrivals| - 1]), arrivals[|arrivals| - 1]);
    }
  }

  /** So, whatever the arrival order, the frontier never exceeds the length
      of the contiguous prefix of received IDs. */
  lemma FrontierAtMostPrefix(arrivals: seq<int>, f: int)
    requires IsFrontier(Replay(arrivals).seen, f)
    ensures Replay(arrivals).frontier <= f
  {
    ReplayBelowSeen(arrivals);
  }

  /** The doc comment's promise fails for out-of-order arrival: after 1 then
      0, both are received (the prefix is 0..1, of length 2) but the frontier
      is 1. */
  lemma OutOfOrderLags()
    ensures Replay([1, 0]) == Progress({0, 1}, 1)
    ensures IsFrontier(Replay([1, 0]).seen, 2)
  {
    assert [1, 0][..1] == [1];
    assert [1][..0] == [];
    assert Replay([1]) == Progress({1}, 0);
  }

  /** In-order arrival keeps the frontier exact: after 0, 1, ..., n-1 the
      frontier is n. */
  lemma {:induction false} InOrderIsExact(n: nat)
    ensures Replay(Upto(n)) == Progress(Below(n), n)
    ensures IsFrontier(Replay(Upto(n)).seen, n)
    decreases n
  {
    if n > 0 {
      InOrderIsExact(n - 1);
      assert Upto(n)[..n - 1] == Upto(n - 1);
    }
  }

  /** A repeated ID changes nothing. */
  lemma RepeatIsIgnored(arrivals: seq<int>, k: nat)
    requires k < |arrivals|
    ensures Arrive(Replay(arrivals), arrivals[k]) == Replay(arrivals)
  {
    ReplaySeen(arrivals);
  }

  /** The received IDs are exactly the arrived ones. */
  lemma {:induction false} ReplaySeen(arrivals: seq<int>)
    ensures Replay(arrivals).seen == set x | x in arrivals
    decreases |arrivals|
  {
    if |arrivals| > 0 {
      var init := arrivals[..|arrivals| - 1];
      ReplaySeen(init);
      assert arrivals == init + [arrivals[|arrivals| - 1]];
      assert (set x | x in init) + {arrivals[|arrivals| - 1]} == set x | x in arrivals;
    }
  }
}
