/** The relay between the mesh and Discord: the message log and DM fan-out
    for incoming texts, the node-name registry, outbound /ack and
    /broadcast, and the /filtermessages view of the log. */
module Relay {
  import opened Wrappers
  import opened Records
  import opened OrderedMaps
  import opened Sequences
  import opened Text
  import Claims
  import Storage

  // ---------------------------------------------------------------------
  // Message log

  /** An incoming text that claims nothing is appended to the log, which is
      then cut down to its size ceiling: the new entry always survives as
      the newest one unless it alone is over the ceiling. */
  lemma {:induction false} LoggedLast(log: seq<LogEntry>, e: LogEntry, size: seq<LogEntry> -> nat)
    ensures var kept := Storage.Evicted(log + [e], size, MaxMessagesFileSize);
            kept == [] || kept[|kept| - 1] == e
    ensures size([e]) <= MaxMessagesFileSize ==> Storage.Evicted(log + [e], size, MaxMessagesFileSize) != []
  {
    var all := log + [e];
    assert all[|log|..] == [e];
  }

  // ---------------------------------------------------------------------
  // DM fan-out

  /** The users the bot DMs about a text from sender, in preference order:
      those with dm_notifications set who appear among the owners listed for
      sender. */
  function Recipients(prefs: ODict<UserId, Pref>, owners: Claims.Owners, sender: NodeId): (r: seq<UserId>)
    ensures |r| <= |prefs.keys|
  {
    FlatMapBounded(prefs.keys, u => if Notified(prefs, owners, sender, u) then [u] else [], 1);
    FlatMap(prefs.keys, u => if Notified(prefs, owners, sender, u) then [u] else [])
  }

  predicate Notified(prefs: ODict<UserId, Pref>, owners: Claims.Owners, sender: NodeId, u: UserId) {
    u in prefs.vals && prefs.vals[u].dmNotifications && sender in owners.vals && owners.vals[sender] == u
  }

  lemma {:induction false} SelectOne<K>(keys: seq<K>, f: K -> seq<K>, x: K, present: bool)
    requires Distinct(keys)
    requires forall i :: 0 <= i < |keys| ==> f(keys[i]) == (if present && keys[i] == x then [x] else [])
    ensures FlatMap(keys, f) == (if present && x in keys then [x] else [])
    decreases |keys|
  {
    if keys != [] {
      var n := |keys| - 1;
      var init := keys[..n];
      assert forall i :: 0 <= i < n ==> init[i] == keys[i];
      SelectOne(init, f, x, present);
      assert keys == init + [keys[n]];
      assert keys[n] == x ==> x !in init;
    }
  }

  /** Exactly the owner of the sending node receives a DM, and only when
      that owner has asked for notifications. */
  lemma {:induction false} RecipientsExact(prefs: ODict<UserId, Pref>, owners: Claims.Owners, sender: NodeId)
    requires prefs.Valid()
    ensures Recipients(prefs, owners, sender)
            == if sender in owners.vals && owners.vals[sender] in prefs.vals && prefs.vals[owners.vals[sender]].dmNotifications
               then [owners.vals[sender]] else []
  {
    var f := u => if Notified(prefs, owners, sender, u) then [u] else [];
    if sender in owners.vals {
      var o := owners.vals[sender];
      var present := o in prefs.vals && prefs.vals[o].dmNotifications;
      SelectOne(prefs.keys, f, o, present);
    } else {
      SelectOne(prefs.keys, f, sender, false);
    }
  }

  /** The users reached when the DMs to the users in forbidden are refused. */
  function Delivered(recipients: seq<UserId>, forbidden: set<UserId>): seq<UserId> {
    FlatMap(recipients, u => if u in forbidden then [] else [u])
  }

  /** The DM loop: every preference entry is inspected in order, and a
      refused DM is logged and skipped. */
  method FanOut(prefs: ODict<UserId, Pref>, owners: Claims.Owners, sender: NodeId, forbidden: set<UserId>)
    returns (attempted: seq<UserId>, delivered: seq<UserId>)
    ensures attempted == Recipients(prefs, owners, sender)
    ensures delivered == Delivered(attempted, forbidden)
  {
    attempted := [];
    delivered := [];
    var i := 0;
    while i < |prefs.keys|
      invariant 0 <= i <= |prefs.keys|
      invariant attempted == FlatMap(prefs.keys[..i], u => if Notified(prefs, owners, sender, u) then [u] else [])
      invariant delivered == Delivered(attempted, forbidden)
    {
      var u := prefs.keys[i];
      assert prefs.keys[..i + 1][..i] == prefs.keys[..i];
      if u in prefs.vals && prefs.vals[u].dmNotifications && sender in owners.vals && owners.vals[sender] == u {
        FlatMapAppend(attempted, [u], u => if u in forbidden then [] else [u]);
        FlatMapSingle(u, u => if u in forbidden then [] else [u]);
        attempted := attempted + [u];
        if u !in forbidden {
          delivered := delivered + [u];
        }
      }
      i := i + 1;
    }
    assert prefs.keys[..i] == prefs.keys;
  }

  /** A refused DM does not stop the others: every recipient whose DMs are
      open is reached, and nobody else. */
  lemma {:induction false} RefusalDoesNotStopFanOut(recipients: seq<UserId>, forbidden: set<UserId>, u: UserId)
    ensures u in Delivered(recipients, forbidden) <==> u in recipients && u !in forbidden
  {
    FlatMapIn(recipients, u => if u in forbidden then [] else [u], u);
  }

  // ---------------------------------------------------------------------
  // Node registry

  /** The radio's record of a node: empty, or with a long name when the
      node has announced one. */
  datatype NodeInfo = Blank | Info(longName: Option<string>)

  /** on_node_updated_async: the node's long name, or "Unknown", is written
      into data["nodes"]; nothing happens without a radio or without a
      non-empty record for the node. */
  function Upsert(nodes: map<NodeId, string>, radio: Option<map<NodeId, NodeInfo>>, id: NodeId): (r: map<NodeId, string>)
    ensures nodes.Keys <= r.Keys
    ensures forall n :: n in nodes && n != id ==> r[n] == nodes[n]
    ensures radio.None? || id !in radio.value || radio.value[id] == Blank ==> r == nodes
    ensures radio.Some? && id in radio.value && radio.value[id].Info?
            ==> r.Keys == nodes.Keys + {id}
                && r[id] == (if radio.value[id].longName.Some? then radio.value[id].longName.value else "Unknown")
  {
    if radio.None? || id !in radio.value || radio.value[id] == Blank then nodes
    else
      var info := radio.value[id];
      nodes[id := if info.longName.Some? then info.longName.value else "Unknown"]
  }

  // ---------------------------------------------------------------------
  // Outbound sends

  /** Meshtastic channel indices the bot accepts. */
  predicate ValidChannel(c: int) {
    0 <= c <= 7
  }

  datatype Destination = Node(id: NodeId) | Everyone

  datatype MeshSend = MeshSend(text: string, to: Destination, channel: int)

  datatype SendError = Forbidden | RadioOffline | UnknownNode | BadChannel

  /** /ack: admin, then radio, then the stripped node id, then the channel. */
  function Ack(isAdmin: bool, radio: Option<set<NodeId>>, rawNode: string, text: string, channel: int): (r: Result<MeshSend, SendError>)
    ensures !isAdmin ==> r == Failure(Forbidden)
    ensures isAdmin && radio.None? ==> r == Failure(RadioOffline)
    ensures isAdmin && radio.Some? && Strip(rawNode) !in radio.value ==> r == Failure(UnknownNode)
    ensures isAdmin && radio.Some? && Strip(rawNode) in radio.value && !ValidChannel(channel) ==> r == Failure(BadChannel)
    ensures r.Success? <==> isAdmin && radio.Some? && Strip(rawNode) in radio.value && ValidChannel(channel)
    ensures r.Success? ==> ValidChannel(r.value.channel) && r.value.channel == channel && r.value.text == text
                           && r.value.to == Node(Strip(rawNode)) && radio.Some? && r.value.to.id in radio.value
  {
    if !isAdmin then Failure(Forbidden)
    else if radio.None? then Failure(RadioOffline)
    else
      var id := Strip(rawNode);
      if id !in radio.value then Failure(UnknownNode)
      else if !(0 <= channel <= 7) then Failure(BadChannel)
      else Success(MeshSend(text, Node(id), channel))
  }

  /** /broadcast: admin, then radio, then the channel. */
  function Broadcast(isAdmin: bool, radioUp: bool, text: string, channel: int): (r: Result<MeshSend, SendError>)
    ensures !isAdmin ==> r == Failure(Forbidden)
    ensures isAdmin && !radioUp ==> r == Failure(RadioOffline)
    ensures isAdmin && radioUp && !ValidChannel(channel) ==> r == Failure(BadChannel)
    ensures r.Success? <==> isAdmin && radioUp && ValidChannel(channel)
    ensures r.Success? ==> ValidChannel(r.value.channel) && r.value == MeshSend(text, Everyone, channel)
  {
    if !isAdmin then Failure(Forbidden)
    else if !radioUp then Failure(RadioOffline)
    else if !(0 <= channel <= 7) then Failure(BadChannel)
    else Success(MeshSend(text, Everyone, channel))
  }

  // ---------------------------------------------------------------------
  // /filtermessages

  datatype FilterError = EmptyLog | RadioMissing | NodeMissing | CallerOwnsNothing | OwnerOwnsNothing

  /** A node argument is used only when given and non-empty. */
  predicate NodeGiven(nodeArg: Option<string>) {
    nodeArg.Some? && nodeArg.value != ""
  }

  /** The nodes whose messages are shown: the stripped node argument, which
      the radio must know; otherwise the nodes of the named owner, or of the
      caller when no owner is named. */
  function Selection(owners: Claims.Owners, radio: Option<set<NodeId>>, caller: UserId,
                     nodeArg: Option<string>, ownerArg: Option<UserId>): (r: Result<set<NodeId>, FilterError>)
    ensures NodeGiven(nodeArg) ==> (r.Success? <==> radio.Some? && Strip(nodeArg.value) in radio.value)
    ensures NodeGiven(nodeArg) && r.Success? ==> r.value == {Strip(nodeArg.value)}
    ensures !NodeGiven(nodeArg) ==> var who := if ownerArg.Some? then ownerArg.value else caller;
            (r.Success? <==> Claims.OwnedBy(owners, who) != {}) && (r.Success? ==> r.value == Claims.OwnedBy(owners, who))
    ensures r.Failure? ==> r.error != EmptyLog
  {
    if NodeGiven(nodeArg) then
      var id := Strip(nodeArg.value);
      if radio.None? then Failure(RadioMissing)
      else if id !in radio.value then Failure(NodeMissing)
      else Success({id})
    else if ownerArg.None? then
      var mine := Claims.OwnedBy(owners, caller);
      if mine == {} then Failure(CallerOwnsNothing) else Success(mine)
    else
      var theirs := Claims.OwnedBy(owners, ownerArg.value);
      if theirs == {} then Failure(OwnerOwnsNothing) else Success(theirs)
  }

  /** The selection as written: in the owner branch the comprehension's own
      variable shadows the owner's id, so the test is always true and every
      owned node is selected. */
  function SelectionAsWritten(owners: Claims.Owners, radio: Option<set<NodeId>>, caller: UserId,
                              nodeArg: Option<string>, ownerArg: Option<UserId>): (r: Result<set<NodeId>, FilterError>)
    ensures NodeGiven(nodeArg) || ownerArg.None?
            ==> r == Selection(owners, radio, caller, nodeArg, ownerArg)
    ensures !NodeGiven(nodeArg) && ownerArg.Some?
            ==> (r.Success? <==> owners.vals != map[]) && (r.Success? ==> r.value == owners.vals.Keys)
  {
    if NodeGiven(nodeArg) || ownerArg.None? then Selection(owners, radio, caller, nodeArg, ownerArg)
    else
      var all := set n | n in owners.vals && owners.vals[n] == owners.vals[n];
      assert all == owners.vals.Keys;
      if all == {} then Failure(OwnerOwnsNothing) else Success(all)
  }

  /** The log entries from the selected nodes, oldest first. */
  function Matching(log: seq<LogEntry>, selected: set<NodeId>): (r: seq<LogEntry>)
    ensures |r| <= |log|
  {
    FlatMapBounded(log, (e: LogEntry) => if e.nodeId in selected then [e] else [], 1);
    FlatMap(log, (e: LogEntry) => if e.nodeId in selected then [e] else [])
  }

  lemma MatchingPair(a: LogEntry, b: LogEntry, selected: set<NodeId>)
    ensures Matching([a, b], selected) == (if a.nodeId in selected then [a] else []) + (if b.nodeId in selected then [b] else [])
  {
    assert [a, b] == [a] + [b];
    FlatMapAppend([a], [b], (e: LogEntry) => if e.nodeId in selected then [e] else []);
    FlatMapSingle(a, (e: LogEntry) => if e.nodeId in selected then [e] else []);
    FlatMapSingle(b, (e: LogEntry) => if e.nodeId in selected then [e] else []);
  }

  /** The newest five elements (all of them when there are fewer). */
  function LastFive<T>(xs: seq<T>): (r: seq<T>)
    ensures |r| == if |xs| < 5 then |xs| else 5
    ensures r == xs[|xs| - |r|..]
  {
    if |xs| <= 5 then xs else xs[|xs| - 5..]
  }

  function FilterMessages(log: seq<LogEntry>, owners: Claims.Owners, radio: Option<set<NodeId>>, caller: UserId,
                          nodeArg: Option<string>, ownerArg: Option<UserId>): (r: Result<seq<LogEntry>, FilterError>)
    ensures log == [] ==> r == Failure(EmptyLog)
    ensures log != [] ==> (r.Success? <==> Selection(owners, radio, caller, nodeArg, ownerArg).Success?)
    ensures r.Success? ==> |r.value| <= 5
    ensures r.Success? ==> r.value == LastFive(Matching(log, Selection(owners, radio, caller, nodeArg, ownerArg).value))
  {
    if log == [] then Failure(EmptyLog)
    else
      match Selection(owners, radio, caller, nodeArg, ownerArg)
      case Failure(e) => Failure(e)
      case Success(selected) => Success(LastFive(Matching(log, selected)))
  }

  function FilterMessagesAsWritten(log: seq<LogEntry>, owners: Claims.Owners, radio: Option<set<NodeId>>, caller: UserId,
                                   nodeArg: Option<string>, ownerArg: Option<UserId>): (r: Result<seq<LogEntry>, FilterError>)
    ensures log == [] ==> r == Failure(EmptyLog)
    ensures NodeGiven(nodeArg) || ownerArg.None? ==> r == FilterMessages(log, owners, radio, caller, nodeArg, ownerArg)
  {
    if log == [] then Failure(EmptyLog)
    else
      match SelectionAsWritten(owners, radio, caller, nodeArg, ownerArg)
      case Failure(e) => Failure(e)
      case Success(selected) => Success(LastFive(Matching(log, selected)))
  }

  /** What /filtermessages shows: the newest (at most five) log entries from
      the selected nodes, oldest first, and every such entry when there are
      at most five. */
  lemma {:induction false} FilterShowsNewestMatching(log: seq<LogEntry>, owners: Claims.Owners, radio: Option<set<NodeId>>,
                                                     caller: UserId, nodeArg: Option<string>, ownerArg: Option<UserId>)
    requires FilterMessages(log, owners, radio, caller, nodeArg, ownerArg).Success?
    ensures var shown := FilterMessages(log, owners, radio, caller, nodeArg, ownerArg).value;
            var selected := Selection(owners, radio, caller, nodeArg, ownerArg).value;
            var matching := Matching(log, selected);
            && shown == matching[|matching| - |shown|..]
            && |shown| == (if |matching| < 5 then |matching| else 5)
            && (forall e :: e in shown ==> e in log && e.nodeId in selected)
            && (|matching| <= 5 ==> forall e :: e in log && e.nodeId in selected ==> e in shown)
  {
    var selected := Selection(owners, radio, caller, nodeArg, ownerArg).value;
    var f := (e: LogEntry) => if e.nodeId in selected then [e] else [];
    forall e | e in log ensures e in Matching(log, selected) <==> e.nodeId in selected {
      FlatMapIn(log, f, e);
      if e.nodeId in selected {
        var i :| 0 <= i < |log| && log[i] == e;
        assert e in f(log[i]);
      }
    }
    forall e | e in Matching(log, selected) ensures e in log {
      FlatMapIn(log, f, e);
    }
  }

  /** Filtering by owner shows only that owner's nodes. */
  lemma {:induction false} OwnerFilterShowsOwnersNodes(log: seq<LogEntry>, owners: Claims.Owners, radio: Option<set<NodeId>>,
                                                       caller: UserId, nodeArg: Option<string>, owner: UserId)
    requires !NodeGiven(nodeArg)
    requires FilterMessages(log, owners, radio, caller, nodeArg, Some(owner)).Success?
    ensures forall e :: e in FilterMessages(log, owners, radio, caller, nodeArg, Some(owner)).value
                        ==> e.nodeId in owners.vals && owners.vals[e.nodeId] == owner
  {
    FilterShowsNewestMatching(log, owners, radio, caller, nodeArg, Some(owner));
  }

  /** As written, the owner argument makes no difference: any two owners get
      the same answer. */
  lemma {:induction false} OwnerIgnoredAsWritten(log: seq<LogEntry>, owners: Claims.Owners, radio: Option<set<NodeId>>,
                                                 caller: UserId, nodeArg: Option<string>, a: UserId, b: UserId)
    requires !NodeGiven(nodeArg)
    ensures FilterMessagesAsWritten(log, owners, radio, caller, nodeArg, Some(a))
            == FilterMessagesAsWritten(log, owners, radio, caller, nodeArg, Some(b))
  {
    var ra := SelectionAsWritten(owners, radio, caller, nodeArg, Some(a));
    var rb := SelectionAsWritten(owners, radio, caller, nodeArg, Some(b));
    assert ra.Success? == rb.Success?;
    if ra.Failure? {
      assert ra.error == OwnerOwnsNothing && rb.error == OwnerOwnsNothing;
    }
  }

  /** Two users with one node each: filtering by bob shows alice's message
      too, where only bob's was meant. */
  lemma OwnerFilterCounterexample()
    ensures var owners := Claims.Owners.ODict(["!a", "!b"], map["!a" := "alice", "!b" := "bob"]);
            var log := [LogEntry("!a", 1, "hi"), LogEntry("!b", 2, "yo")];
            && FilterMessagesAsWritten(log, owners, None, "carol", None, Some("bob")) == Success(log)
            && FilterMessages(log, owners, None, "carol", None, Some("bob")) == Success([LogEntry("!b", 2, "yo")])
  {
    var owners := Claims.Owners.ODict(["!a", "!b"], map["!a" := "alice", "!b" := "bob"]);
    var log := [LogEntry("!a", 1, "hi"), LogEntry("!b", 2, "yo")];
    assert "!a" in owners.vals && owners.vals.Keys == {"!a", "!b"};
    var written := SelectionAsWritten(owners, None, "carol", None, Some("bob"));
    assert written == Success({"!a", "!b"});
    assert Claims.OwnedBy(owners, "bob") == {"!b"};
    assert Selection(owners, None, "carol", None, Some("bob")) == Success({"!b"});
    MatchingPair(log[0], log[1], {"!a", "!b"});
    MatchingPair(log[0], log[1], {"!b"});
    assert Matching(log, {"!a", "!b"}) == log;
    assert Matching(log, {"!b"}) == [log[1]];
    assert FilterMessagesAsWritten(log, owners, None, "carol", None, Some("bob")) == Success(LastFive(log));
    assert FilterMessages(log, owners, None, "carol", None, Some("bob")) == Success(LastFive([log[1]]));
  }
}
