/** The directory of every user the node has heard of
    (Project/Interface/AllUsers.cs): a dictionary from user name to the
    user's record, the entry point for rumors arriving from peers, and the
    full dump of stored rumors sent in answer to an UPDATE request. */
module AllUsersRegistry {
  import opened Wrappers
  import opened Fields
  import opened Wire
  import opened PeerLink
  import opened OriginRecord

  /** One stored message as the dump writes it: whose it is, its ID, the
      owner's current `Distance`, and its date and text. */
  datatype Stored = Stored(user: string, msgID: int, distance: int, entry: Entry)

  /** The parts of one user's record the dump reads. */
  datatype View = View(name: string, distance: int, order: seq<int>, messages: map<int, Entry>)

  /** Every listed ID has a stored message. */
  predicate Listed(v: View)
  {
    forall i :: 0 <= i < |v.order| ==> v.order[i] in v.messages
  }

  /** Beyond `Listed`: the order lists every stored ID exactly once, as
      `User.Valid` keeps. */
  predicate ViewValid(v: View)
  {
    (forall i, j :: 0 <= i < j < |v.order| ==> v.order[i] != v.order[j])
    && (forall id :: id in v.messages ==> id in v.order)
  }

  /** The line `GetRumorList` formats for a stored message: a RUMOR packet
      with the owner's distance as its bounce. */
  function Line(x: Stored): string
  {
    EncodeRumor(x.distance, x.user, x.msgID, x.entry.date, x.entry.text)
  }

  function Lines(xs: seq<Stored>): (r: seq<string>)
    ensures |r| == |xs| && forall k :: 0 <= k < |xs| ==> r[k] == Line(xs[k])
  {
    if |xs| == 0 then [] else Lines(xs[..|xs| - 1]) + [Line(xs[|xs| - 1])]
  }

  /** The messages of one user, in the order its dictionary lists them. */
  function UserStored(name: string, distance: int, ids: seq<int>, messages: map<int, Entry>): seq<Stored>
    requires forall i :: 0 <= i < |ids| ==> ids[i] in messages
    decreases |ids|
  {
    if |ids| == 0 then []
    else
      var last := ids[|ids| - 1];
      UserStored(name, distance, ids[..|ids| - 1], messages) + [Stored(name, last, distance, messages[last])]
  }

  /** Every stored message, user after user. */
  function AllStored(views: seq<View>): seq<Stored>
    requires forall i :: 0 <= i < |views| ==> Listed(views[i])
    decreases |views|
  {
    if |views| == 0 then []
    else
      var v := views[|views| - 1];
      assert Listed(v);
      AllStored(views[..|views| - 1]) + UserStored(v.name, v.distance, v.order, v.messages)
  }

  /** The number of stored messages. */
  function TotalMessages(views: seq<View>): nat
    decreases |views|
  {
    if |views| == 0 then 0 else TotalMessages(views[..|views| - 1]) + |views[|views| - 1].messages|
  }

  /** The static `AllUsers` class: its dictionary, the order in which the
      dictionary enumerates its names, and the `NbMessages` counter. */
  class AllUsers {
    var all: map<string, User>
    var names: seq<string>
    const counter: MessageCounter

    /** Every name is listed once; each record is valid and carries its own
        name, so no record belongs to two names. */
    ghost predicate Valid()
      reads this, all.Values`messages, all.Values`order, all.Values`nextExpected
    {
      (forall i, j :: 0 <= i < j < |names| ==> names[i] != names[j])
      && (forall i :: 0 <= i < |names| ==> names[i] in all)
      && (forall n :: n in all ==> n in names)
      && (forall n :: n in all ==> all[n].Valid() && all[n].username == n)
    }

    constructor ()
      ensures Valid() && all == map[] && names == [] && fresh(counter) && counter.nbMessages == 0
    {
      all := map[];
      names := [];
      counter := new MessageCounter();
    }

    /** The stored messages of `user`; none for an unknown user. */
    function MessagesOf(user: string): map<int, Entry>
      reads this, all.Values
    {
      if user in all then all[user].messages else map[]
    }

    function LatestPeerOf(user: string): Peer?
      reads this, all.Values
    {
      if user in all then all[user].latestPeer else null
    }

    function DistanceOf(user: string): int
      reads this, all.Values
    {
      if user in all then all[user].distance else 0
    }

    /** The record of `user`, created empty when the name is unknown. */
    method Register(user: string) returns (record: User)
      requires Valid()
      modifies this`all, this`names
      ensures Valid()
      ensures user in all && record == all[user]
      ensures user in old(all) ==> all == old(all) && names == old(names)
      ensures user !in old(all) ==>
                fresh(record) && all == old(all)[user := record] && names == old(names) + [user]
                && record.messages == map[] && record.nextExpected == 0 && record.privateMessages == None
                && record.latestPeer == null && record.distance == 0
    {
      if user !in all {
        record := new User(user, false);
        all := all[user := record];
        names := names + [user];
      } else {
        record := all[user];
      }
    }

    /** The second half of `NewMessage`, once the record exists: store the
        message, then record the peer and the bounce if it was new and came
        from a peer. */
    method Store(record: User, origin: Peer?, bounce: int, msgID: int, date: Date, msg: string)
      returns (isNew: bool)
      requires Valid() && record in all.Values
      modifies record, counter`nbMessages
      ensures Valid()
      ensures isNew <==> msgID !in old(record.messages) && origin != null
      ensures record.messages == if msgID in old(record.messages) then old(record.messages)
                                 else old(record.messages)[msgID := Entry(date, msg)]
      ensures record.latestPeer == if isNew then origin else old(record.latestPeer)
      ensures record.distance == if isNew then bounce else old(record.distance)
      ensures counter.nbMessages == old(counter.nbMessages) + if msgID in old(record.messages) then 0 else 1
    {
      var added := record.AddMessage(msgID, date, msg, counter);
      isNew := added && origin != null;
      if isNew {
        record.latestPeer := origin;
        record.distance := bounce;
      }
    }

    /** `NewMessage`: an unknown user is created first; the message is
        stored if its ID is unseen; and exactly when it was unseen and came
        from a peer, that peer becomes the user's `LatestPeer`, the bounce
        its `Distance`, and the result is true. */
    method NewMessage(origin: Peer?, bounce: int, user: string, msgID: int, date: Date, msg: string)
      returns (isNew: bool)
      requires Valid()
      modifies this`all, this`names, counter`nbMessages, if user in all then {all[user]} else {}
      ensures Valid()
      ensures user in all && (user !in old(all) ==> fresh(all[user]))
      ensures forall n :: n in old(all) ==> n in all && all[n] == old(all[n])
      ensures all.Keys == old(all.Keys) + {user}
      ensures names == old(names) + (if user in old(all) then [] else [user])
      ensures isNew <==> msgID !in old(MessagesOf(user)) && origin != null
      ensures MessagesOf(user) == if msgID in old(MessagesOf(user)) then old(MessagesOf(user))
                                  else old(MessagesOf(user))[msgID := Entry(date, msg)]
      ensures LatestPeerOf(user) == if isNew then origin else old(LatestPeerOf(user))
      ensures DistanceOf(user) == if isNew then bounce else old(DistanceOf(user))
      ensures counter.nbMessages == old(counter.nbMessages) + if msgID in old(MessagesOf(user)) then 0 else 1
    {
      var record := Register(user);
      isNew := Store(record, origin, bounce, msgID, date, msg);
    }

    /** `AddPotentialNewUser`: an unknown name gets an empty record whose
        `LatestPeer` is the peer that spoke of it; a known one is left alone. */
    method AddPotentialNewUser(origin: Peer?, user: string)
      requires Valid()
      modifies this`all, this`names
      ensures Valid()
      ensures user in old(all) ==> all == old(all) && names == old(names)
      ensures user !in old(all) ==>
                user in all && fresh(all[user]) && all == old(all)[user := all[user]] && names == old(names) + [user]
                && all[user].messages == map[] && all[user].nextExpected == 0
                && all[user].latestPeer == origin && all[user].distance == 0
                && all[user].privateMessages == None
    {
      if user !in all {
        var u := Register(user);
        u.latestPeer := origin;
      }
    }

    /** The records the dump reads, in dictionary order. */
    function ViewsOf(ns: seq<string>): (vs: seq<View>)
      requires Valid()
      requires forall i :: 0 <= i < |ns| ==> ns[i] in all
      reads this, all.Values
      ensures |vs| == |ns| && forall i :: 0 <= i < |vs| ==> Listed(vs[i]) && ViewValid(vs[i])
      decreases |ns|
    {
      if |ns| == 0 then []
      else
        var n := ns[|ns| - 1];
        ViewsOf(ns[..|ns| - 1]) + [View(n, all[n].distance, all[n].order, all[n].messages)]
    }

    /** `GetRumorList`: one RUMOR line per stored message, user by user. */
    method GetRumorList() returns (rumorList: seq<string>)
      requires Valid()
      ensures rumorList == Lines(AllStored(ViewsOf(names)))
    {
      var views := ViewsOf(names);
      rumorList := DumpLines(views);
    }

    /** The peers the descriptions read. */
    ghost function LatestPeers(): set<Peer?>
      reads this, all.Values
    {
      set n | n in all :: all[n].latestPeer
    }

    /** The description of each listed record. */
    function DescriptionsOf(ns: seq<string>): (ds: seq<string>)
      requires Valid()
      requires forall i :: 0 <= i < |ns| ==> ns[i] in all
      reads this, all.Values, LatestPeers()
      ensures |ds| == |ns|
      decreases |ns|
    {
      if |ns| == 0 then []
      else DescriptionsOf(ns[..|ns| - 1]) + [all[ns[|ns| - 1]].Describe()]
    }

    /** A step that changes neither the table, nor a record, nor a peer a
        record points to, leaves every description as it was. */
    twostate lemma DescriptionsUnchanged(ds: seq<string>)
      requires old(Valid()) && ds == old(DescriptionsOf(names))
      requires unchanged(this) && forall u :: u in old(all.Values) ==> unchanged(u)
      requires forall p :: p in old(LatestPeers()) && p != null ==> unchanged(p)
      ensures Valid() && DescriptionsOf(names) == ds
    {
    }

    /** `AllToString`: one description per user, '\n' between them, no
        trailing newline, and "" for no users. */
    method AllToString() returns (s: string)
      requires Valid()
      ensures s == JoinLines(DescriptionsOf(names))
    {
      ghost var ds := DescriptionsOf(names);
      s := JoinedLines(DescriptionsOf(names));
      DescriptionsUnchanged(ds);
    }

  }

  /** The two nested loops of `GetRumorList` over the records. */
  method DumpLines(views: seq<View>) returns (rumorList: seq<string>)
    requires forall i :: 0 <= i < |views| ==> Listed(views[i])
    ensures rumorList == Lines(AllStored(views))
  {
    rumorList := [];
    var u := 0;
    while u < |views|
      invariant 0 <= u <= |views|
      invariant rumorList == Lines(AllStored(views[..u]))
    {
      var v := views[u];
      var lines := [];
      ghost var acc: seq<Stored> := [];
      var m := 0;
      while m < |v.order|
        invariant 0 <= m <= |v.order|
        invariant acc == UserStored(v.name, v.distance, v.order[..m], v.messages)
        invariant lines == Lines(acc)
      {
        var id := v.order[m];
        var entry := v.messages[id];
        UserStoredSnoc(v.name, v.distance, v.order, v.messages, m);
        LinesSnoc(acc, Stored(v.name, id, v.distance, entry));
        acc := acc + [Stored(v.name, id, v.distance, entry)];
        lines := lines + [EncodeRumor(v.distance, v.name, id, entry.date, entry.text)];
        m := m + 1;
      }
      assert v.order[..|v.order|] == v.order;
      AllStoredSnoc(views, u);
      LinesAppend(AllStored(views[..u]), acc);
      rumorList := rumorList + lines;
      u := u + 1;
    }
    assert views[..|views|] == views;
  }

  // ---------------------------------------------------------------- lemmas

  lemma LinesSnoc(xs: seq<Stored>, x: Stored)
    ensures Lines(xs + [x]) == Lines(xs) + [Line(x)]
  {
    assert (xs + [x])[..|xs|] == xs;
  }

  lemma {:induction false} LinesAppend(xs: seq<Stored>, ys: seq<Stored>)
    ensures Lines(xs + ys) == Lines(xs) + Lines(ys)
    decreases |ys|
  {
    if |ys| == 0 {
      assert xs + ys == xs;
    } else {
      var init := ys[..|ys| - 1];
      var last := ys[|ys| - 1];
      assert xs + ys == (xs + init) + [last];
      assert ys == init + [last];
      LinesAppend(xs, init);
      LinesSnoc(xs + init, last);
      LinesSnoc(init, last);
    }
  }

  lemma UserStoredSnoc(name: string, distance: int, ids: seq<int>, messages: map<int, Entry>, m: nat)
    requires m < |ids|
    requires forall i :: 0 <= i < |ids| ==> ids[i] in messages
    ensures UserStored(name, distance, ids[..m + 1], messages)
            == UserStored(name, distance, ids[..m], messages) + [Stored(name, ids[m], distance, messages[ids[m]])]
  {
    assert ids[..m + 1][..m] == ids[..m];
  }

  lemma AllStoredSnoc(views: seq<View>, u: nat)
    requires u < |views|
    requires forall i :: 0 <= i < |views| ==> Listed(views[i])
    ensures AllStored(views[..u + 1])
            == AllStored(views[..u]) + UserStored(views[u].name, views[u].distance, views[u].order, views[u].messages)
  {
    assert views[..u + 1][..u] == views[..u];
  }

  /** A list of distinct IDs covering a dictionary's keys is as long as the
      dictionary is large. */
  lemma {:induction false} DistinctCovering(ids: seq<int>, messages: map<int, Entry>)
    requires forall i, j :: 0 <= i < j < |ids| ==> ids[i] != ids[j]
    requires forall i :: 0 <= i < |ids| ==> ids[i] in messages
    requires forall id :: id in messages ==> id in ids
    ensures |ids| == |messages|
    decreases |ids|
  {
    if |ids| > 0 {
      var last := ids[|ids| - 1];
      var rest := map id | id in messages && id != last :: messages[id];
      assert forall i :: 0 <= i < |ids| - 1 ==> ids[..|ids| - 1][i] == ids[i];
      forall id | id in rest ensures id in ids[..|ids| - 1] {
        var i :| 0 <= i < |ids| && ids[i] == id;
        assert i < |ids| - 1;
      }
      DistinctCovering(ids[..|ids| - 1], rest);
      assert messages.Keys == rest.Keys + {last};
    } else {
      assert messages.Keys == {};
    }
  }

  lemma {:induction false} UserStoredSize(name: string, distance: int, ids: seq<int>, messages: map<int, Entry>)
    requires forall i :: 0 <= i < |ids| ==> ids[i] in messages
    ensures |UserStored(name, distance, ids, messages)| == |ids|
    decreases |ids|
  {
    if |ids| > 0 {
      UserStoredSize(name, distance, ids[..|ids| - 1], messages);
    }
  }

  /** The dump has exactly as many lines as there are stored messages. */
  lemma {:induction false} RumorListLength(views: seq<View>)
    requires forall i :: 0 <= i < |views| ==> Listed(views[i]) && ViewValid(views[i])
    ensures |Lines(AllStored(views))| == TotalMessages(views)
    decreases |views|
  {
    if |views| > 0 {
      var v := views[|views| - 1];
      RumorListLength(views[..|views| - 1]);
      UserStoredSize(v.name, v.distance, v.order, v.messages);
      DistinctCovering(v.order, v.messages);
    }
  }

  lemma {:induction false} UserStoredHas(name: string, distance: int, ids: seq<int>,
                                         messages: map<int, Entry>, x: Stored)
    requires forall i :: 0 <= i < |ids| ==> ids[i] in messages
    ensures x in UserStored(name, distance, ids, messages)
            <==> x.user == name && x.distance == distance && x.msgID in ids && x.entry == messages[x.msgID]
    decreases |ids|
  {
    if |ids| > 0 {
      UserStoredHas(name, distance, ids[..|ids| - 1], messages, x);
      if x.msgID in ids && x.msgID != ids[|ids| - 1] {
        var i :| 0 <= i < |ids| && ids[i] == x.msgID;
        assert ids[..|ids| - 1][i] == x.msgID;
      }
    }
  }

  /** Every stored message has a line in the dump, and every line of the
      dump is a stored message. */
  lemma {:induction false} AllStoredHas(views: seq<View>, x: Stored)
    requires forall i :: 0 <= i < |views| ==> Listed(views[i]) && ViewValid(views[i])
    ensures x in AllStored(views)
            <==> exists i :: 0 <= i < |views| && x.user == views[i].name
                             && x.distance == views[i].distance && x.msgID in views[i].messages
                             && x.entry == views[i].messages[x.msgID]
    decreases |views|
  {
    if |views| > 0 {
      var init := views[..|views| - 1];
      var v := views[|views| - 1];
      AllStoredHas(init, x);
      UserStoredHas(v.name, v.distance, v.order, v.messages, x);
      if exists i :: 0 <= i < |views| && x.user == views[i].name
                     && x.distance == views[i].distance && x.msgID in views[i].messages
                     && x.entry == views[i].messages[x.msgID] {
        var i :| 0 <= i < |views| && x.user == views[i].name
                 && x.distance == views[i].distance && x.msgID in views[i].messages
                 && x.entry == views[i].messages[x.msgID];
        if i < |views| - 1 {
          assert init[i] == views[i];
        }
      }
      if exists i :: 0 <= i < |init| && x.user == init[i].name
                     && x.distance == init[i].distance && x.msgID in init[i].messages
                     && x.entry == init[i].messages[x.msgID] {
        var i :| 0 <= i < |init| && x.user == init[i].name
                 && x.distance == init[i].distance && x.msgID in init[i].messages
                 && x.entry == init[i].messages[x.msgID];
        assert views[i] == init[i];
      }
    }
  }
}
