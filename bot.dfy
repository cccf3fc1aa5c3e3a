/** The bot's in-memory state and the events and commands that change it.

    The module-level tables of bot.py become fields of one object; every
    Discord or radio call is an input (whether a DM or the channel can be
    reached, whether the radio is connected, which nodes it knows) or an
    output of the method. The byte size of a saved file is the abstract
    function fixed when the bot is created. */
module MeshBot {
  import opened Wrappers
  import opened Records
  import opened OrderedMaps
  import opened Text
  import Claims
  import Wizard
  import Alerts
  import Relay
  import Storage

  /** A running 300-second claim timer: the user and the claim it was
      started for. */
  datatype Timer = Timer(user: UserId, claim: Claims.Claim)

  /** A session waiting at step 2.5 has a pending claim with a timer running
      for exactly that claim. */
  ghost predicate Waiting(sessions: Wizard.Sessions, pending: Claims.Pending, timers: seq<Timer>) {
    forall u :: u in sessions && sessions[u].step == Wizard.AwaitingClaim
                ==> u in pending.vals && Timer(u, pending.vals[u]) in timers
  }

  /** The timer bookkeeping of a reaction keeps every waiting session covered. */
  lemma ReactKeepsWaiting(sessions: Wizard.Sessions, pending: Claims.Pending, timers: seq<Timer>, user: UserId,
                          msgId: MsgId, emoji: Wizard.Emoji, now: int, dmOk: bool, radioUp: bool, code: string, freshId: MsgId)
    requires pending.Valid() && Waiting(sessions, pending, timers)
    ensures var r := Wizard.React(sessions, user, msgId, emoji, now, dmOk, radioUp, user in pending.vals, code, freshId);
            Waiting(r.sessions,
                    if r.claim.Some? then pending.Put(user, r.claim.value) else pending,
                    if r.timer then timers + [Timer(user, r.claim.value)] else timers)
  {
    var r := Wizard.React(sessions, user, msgId, emoji, now, dmOk, radioUp, user in pending.vals, code, freshId);
    var p := if r.claim.Some? then pending.Put(user, r.claim.value) else pending;
    var t := if r.timer then timers + [Timer(user, r.claim.value)] else timers;
    forall v | v in r.sessions && r.sessions[v].step == Wizard.AwaitingClaim
      ensures v in p.vals && Timer(v, p.vals[v]) in t
    {
      if v != user || !r.timer {
        assert v in sessions && sessions[v] == r.sessions[v];
        assert v in pending.vals && Timer(v, pending.vals[v]) in timers;
      }
    }
  }

  /** Firing the oldest timer keeps every waiting session covered. */
  lemma TimeoutKeepsWaiting(sessions: Wizard.Sessions, pending: Claims.Pending, timers: seq<Timer>,
                            now: int, dmOk: bool, freshId: MsgId)
    requires pending.Valid() && Waiting(sessions, pending, timers) && timers != []
    ensures var t := timers[0];
            var own := t.user in pending.vals && pending.vals[t.user] == t.claim;
            Waiting(if own then Wizard.TimedOut(sessions, t.user, now, dmOk, freshId) else sessions,
                    Claims.Expire(pending, t.user, t.claim), timers[1..])
  {
    var t := timers[0];
    var own := t.user in pending.vals && pending.vals[t.user] == t.claim;
    var s := if own then Wizard.TimedOut(sessions, t.user, now, dmOk, freshId) else sessions;
    var p := Claims.Expire(pending, t.user, t.claim);
    forall v | v in s && s[v].step == Wizard.AwaitingClaim
      ensures v in p.vals && Timer(v, p.vals[v]) in timers[1..]
    {
      assert v in sessions && sessions[v] == s[v];
      assert v in pending.vals && Timer(v, pending.vals[v]) in timers;
      assert v != t.user || !own;
      assert p.vals[v] == pending.vals[v];
      var i :| 0 <= i < |timers| && timers[i] == Timer(v, pending.vals[v]);
      assert i != 0;
      assert timers[1..][i - 1] == timers[i];
    }
  }

  /** The timer as bot.py:663-667 writes it keeps every waiting session
      covered too: it deletes whatever claim the user has pending and then
      sends a session still at 2.5 back to step 2, so the class could run
      it in place of the corrected one without breaking Valid(). */
  lemma TimeoutAsWrittenKeepsWaiting(sessions: Wizard.Sessions, pending: Claims.Pending, timers: seq<Timer>,
                                     now: int, dmOk: bool, freshId: MsgId)
    requires pending.Valid() && Waiting(sessions, pending, timers) && timers != []
    ensures var u := timers[0].user;
            Waiting(if u in pending.vals then Wizard.TimedOut(sessions, u, now, dmOk, freshId) else sessions,
                    Claims.ExpireAsWritten(pending, u), timers[1..])
  {
    var u := timers[0].user;
    var s := if u in pending.vals then Wizard.TimedOut(sessions, u, now, dmOk, freshId) else sessions;
    var p := Claims.ExpireAsWritten(pending, u);
    forall v | v in s && s[v].step == Wizard.AwaitingClaim
      ensures v in p.vals && Timer(v, p.vals[v]) in timers[1..]
    {
      assert v != u;
      assert v in sessions && sessions[v] == s[v];
      assert v in pending.vals && Timer(v, pending.vals[v]) in timers;
      var i :| 0 <= i < |timers| && timers[i] == Timer(v, pending.vals[v]);
      assert i != 0;
      assert timers[1..][i - 1] == timers[i];
    }
  }

  /** Consuming a user's claim keeps every waiting session covered: the
      user's own session leaves step 2.5. */
  lemma ClaimKeepsWaiting(sessions: Wizard.Sessions, pending: Claims.Pending, timers: seq<Timer>,
                          user: UserId, now: int, freshId: MsgId)
    requires pending.Valid() && Waiting(sessions, pending, timers)
    ensures Waiting(Wizard.Claimed(sessions, user, now, freshId), pending.Remove(user), timers)
  {
    var s := Wizard.Claimed(sessions, user, now, freshId);
    forall v | v in s && s[v].step == Wizard.AwaitingClaim
      ensures v in pending.Remove(user).vals && Timer(v, pending.Remove(user).vals[v]) in timers
    {
      assert v != user && sessions[v] == s[v];
    }
  }

  class Bot {
    var nodes: map<NodeId, string>
    var owners: Claims.Owners
    var pending: Claims.Pending
    var sessions: Wizard.Sessions
    var prefs: ODict<UserId, Pref>
    var messages: seq<LogEntry>
    var alerts: seq<Alerts.Alert>
    /** Timers in the order they were started, so the first is due first. */
    var timers: seq<Timer>
    const messageBytes: seq<LogEntry> -> nat
    const preferenceBytes: ODict<UserId, Pref> -> nat

    /** The tables are well-formed dictionaries, every session is
        Consistent, and a session waiting at step 2.5 has a pending claim
        with a timer running for exactly that claim. */
    ghost predicate Valid()
      reads this
    {
      owners.Valid() && pending.Valid() && prefs.Valid()
      && Wizard.AllConsistent(sessions) && Waiting(sessions, pending, timers)
    }

    constructor (messageBytes: seq<LogEntry> -> nat, preferenceBytes: ODict<UserId, Pref> -> nat)
      ensures Valid()
      ensures nodes == map[] && owners == Empty() && pending == Empty() && sessions == map[]
      ensures prefs == Empty() && messages == [] && alerts == [] && timers == []
      ensures this.messageBytes == messageBytes && this.preferenceBytes == preferenceBytes
    {
      nodes := map[];
      owners := Empty();
      pending := Empty();
      sessions := map[];
      prefs := Empty();
      messages := [];
      alerts := [];
      timers := [];
      this.messageBytes := messageBytes;
      this.preferenceBytes := preferenceBytes;
    }

    // -------------------------------------------------------------------
    // Setup wizard

    /** /setup. */
    method Setup(user: UserId, now: int, dmOk: bool, freshId: MsgId) returns (err: Option<Wizard.SetupError>)
      requires Valid()
      modifies this`sessions
      ensures Valid()
      ensures var r := Wizard.Start(old(sessions), user, now, dmOk, freshId);
              && (r.Success? ==> sessions == r.value && err == None)
              && (r.Failure? ==> sessions == old(sessions) && err == Some(r.error))
    {
      var r := Wizard.Start(sessions, user, now, dmOk, freshId);
      if r.Success? {
        assert forall v :: v in r.value && v != user ==> v in sessions && r.value[v] == sessions[v];
        sessions := r.value;
        err := None;
      } else {
        err := Some(r.error);
      }
    }

    /** A reaction by user on message msgId. A claim the wizard issues is
        recorded in pending_claims and gets its timer; a preference it
        stores is saved with eviction. */
    method OnReaction(user: UserId, msgId: MsgId, emoji: Wizard.Emoji, now: int, dmOk: bool, radioUp: bool,
                      code: string, freshId: MsgId)
      requires Valid()
      modifies this`sessions, this`pending, this`timers, this`prefs
      ensures Valid()
      ensures var r := Wizard.React(old(sessions), user, msgId, emoji, now, dmOk, radioUp, user in old(pending).vals, code, freshId);
              && sessions == r.sessions
              && pending == (if r.claim.Some? then old(pending).Put(user, r.claim.value) else old(pending))
              && timers == (if r.timer then old(timers) + [Timer(user, r.claim.value)] else old(timers))
              && prefs == (if r.saved.Some?
                           then Storage.EvictedPrefs(old(prefs).Put(user, r.saved.value), preferenceBytes, MaxPreferencesFileSize)
                           else old(prefs))
    {
      var hasPending := user in pending.vals;
      var r := Wizard.React(sessions, user, msgId, emoji, now, dmOk, radioUp, hasPending, code, freshId);
      Wizard.ReactConsistent(sessions, user, msgId, emoji, now, dmOk, radioUp, hasPending, code, freshId);
      ReactKeepsWaiting(sessions, pending, timers, user, msgId, emoji, now, dmOk, radioUp, code, freshId);
      var p := if r.claim.Some? then pending.Put(user, r.claim.value) else pending;
      var t := if r.timer then timers + [Timer(user, r.claim.value)] else timers;
      sessions, pending, timers := r.sessions, p, t;
      if r.saved.Some? {
        SavePreference(user, r.saved.value);
      }
    }

    /** preferences[user] = pref followed by save_preferences. */
    method SavePreference(user: UserId, pref: Pref)
      requires Valid()
      modifies this`prefs
      ensures Valid()
      ensures prefs == Storage.EvictedPrefs(old(prefs).Put(user, pref), preferenceBytes, MaxPreferencesFileSize)
    {
      prefs := Storage.EvictPreferences(prefs.Put(user, pref), preferenceBytes);
    }

    /** The end of the oldest running claim timer, if it is due: the claim
        it was started for is deleted if still pending, and then a session
        still waiting at 2.5 goes back to step 2. */
    method ClaimTimeout(now: int, dmOk: bool, freshId: MsgId)
      requires Valid()
      modifies this`timers, this`pending, this`sessions
      ensures Valid()
      ensures old(timers) == [] || now - old(timers)[0].claim.timestamp < Claims.ClaimWindow
              ==> timers == old(timers) && pending == old(pending) && sessions == old(sessions)
      ensures old(timers) != [] && now - old(timers)[0].claim.timestamp >= Claims.ClaimWindow
              ==> var t := old(timers)[0];
                  var own := t.user in old(pending).vals && old(pending).vals[t.user] == t.claim;
                  && timers == old(timers)[1..]
                  && pending == Claims.Expire(old(pending), t.user, t.claim)
                  && sessions == (if own then Wizard.TimedOut(old(sessions), t.user, now, dmOk, freshId) else old(sessions))
    {
      if timers != [] && now - timers[0].claim.timestamp >= Claims.ClaimWindow {
        var t := timers[0];
        var own := t.user in pending.vals && pending.vals[t.user] == t.claim;
        Wizard.ClaimEventsFollowEdges(sessions, t.user, now, dmOk, freshId);
        TimeoutKeepsWaiting(sessions, pending, timers, now, dmOk, freshId);
        timers := timers[1..];
        pending := Claims.Expire(pending, t.user, t.claim);
        if own {
          sessions := Wizard.TimedOut(sessions, t.user, now, dmOk, freshId);
        }
      }
    }

    // -------------------------------------------------------------------
    // Claims and ownership

    /** A text from the mesh. A text equal to a live pending code claims the
        sender's node for that claim's user; the claim is consumed and the
        user's wizard advanced only when the confirmation DM goes through.
        Any other text is logged and, when the relay channel is reachable,
        DMed to the node's owner if they asked for it. */
    method OnMeshText(sender: NodeId, raw: string, now: int, dmOk: bool, channelUp: bool,
                      forbidden: set<UserId>, freshId: MsgId)
      returns (claimedBy: Option<UserId>, notified: seq<UserId>)
      requires Valid()
      modifies this`owners, this`pending, this`sessions, this`messages
      ensures Valid()
      ensures claimedBy == Claims.FirstMatch(old(pending), Strip(raw), now)
      ensures claimedBy.Some? ==> && owners == old(owners).Put(sender, claimedBy.value)
                                  && messages == old(messages) && notified == []
                                  && pending == (if dmOk then old(pending).Remove(claimedBy.value) else old(pending))
                                  && sessions == (if dmOk then Wizard.Claimed(old(sessions), claimedBy.value, now, freshId)
                                                  else old(sessions))
      ensures claimedBy.None? ==> && owners == old(owners) && pending == old(pending) && sessions == old(sessions)
                                  && messages == Storage.Evicted(old(messages) + [LogEntry(sender, now, Strip(raw))],
                                                                 messageBytes, MaxMessagesFileSize)
                                  && notified == (if channelUp then Relay.Delivered(Relay.Recipients(prefs, owners, sender), forbidden)
                                                  else [])
    {
      var text := Strip(raw);
      claimedBy := Claims.FindClaim(pending, text, now);
      notified := [];
      if claimedBy.Some? {
        CompleteClaim(sender, claimedBy.value, now, dmOk, freshId);
      } else {
        LogText(sender, text, now);
        if channelUp {
          var attempted;
          attempted, notified := Relay.FanOut(prefs, owners, sender, forbidden);
        }
      }
    }

    /** The sender's node goes to user; then, if the confirmation DM is
        delivered, the claim is consumed and the user's wizard told. */
    method CompleteClaim(sender: NodeId, user: UserId, now: int, dmOk: bool, freshId: MsgId)
      requires Valid()
      modifies this`owners, this`pending, this`sessions
      ensures Valid()
      ensures owners == old(owners).Put(sender, user)
      ensures pending == (if dmOk then old(pending).Remove(user) else old(pending))
      ensures sessions == (if dmOk then Wizard.Claimed(old(sessions), user, now, freshId) else old(sessions))
    {
      owners := owners.Put(sender, user);
      if dmOk {
        Wizard.ClaimEventsFollowEdges(sessions, user, now, false, freshId);
        ClaimKeepsWaiting(sessions, pending, timers, user, now, freshId);
        pending, sessions := pending.Remove(user), Wizard.Claimed(sessions, user, now, freshId);
      }
    }

    /** messages.append followed by save_messages. */
    method LogText(sender: NodeId, text: string, now: int)
      requires Valid()
      modifies this`messages
      ensures Valid()
      ensures messages == Storage.Evicted(old(messages) + [LogEntry(sender, now, text)], messageBytes, MaxMessagesFileSize)
    {
      messages := Storage.EvictMessages(messages + [LogEntry(sender, now, text)], messageBytes);
    }

    /** /claimnode. */
    method ClaimNode(user: UserId, code: string, now: int, radioUp: bool) returns (err: Option<Claims.ClaimError>)
      requires Valid()
      modifies this`pending
      ensures Valid()
      ensures var r := Claims.ClaimNode(old(pending), user, code, now, radioUp);
              && (r.Success? ==> pending == r.value && err == None)
              && (r.Failure? ==> pending == old(pending) && err == Some(r.error))
    {
      var r := Claims.ClaimNode(pending, user, code, now, radioUp);
      if r.Success? {
        pending := r.value;
        err := None;
      } else {
        err := Some(r.error);
      }
    }

    /** /releasenode; revokeRole says whether the Node Owner role is taken. */
    method ReleaseNode(user: UserId) returns (revokeRole: bool, err: Option<Claims.OwnershipError>)
      requires Valid()
      modifies this`owners
      ensures Valid()
      ensures var r := Claims.ReleaseNode(old(owners), user);
              && (r.Success? ==> owners == r.value.owners && revokeRole == r.value.revokeRole && err == None)
              && (r.Failure? ==> owners == old(owners) && !revokeRole && err == Some(r.error))
    {
      var r := Claims.ReleaseNode(owners, user);
      if r.Success? {
        owners, revokeRole, err := r.value.owners, r.value.revokeRole, None;
      } else {
        revokeRole, err := false, Some(r.error);
      }
    }

    /** /addnode; known is the radio's node table, empty when disconnected. */
    method AddNode(isAdmin: bool, known: set<NodeId>, rawNode: string, user: UserId) returns (err: Option<Claims.OwnershipError>)
      requires Valid()
      modifies this`owners
      ensures Valid()
      ensures var r := Claims.AddNode(old(owners), isAdmin, known, rawNode, user);
              && (r.Success? ==> owners == r.value && err == None)
              && (r.Failure? ==> owners == old(owners) && err == Some(r.error))
    {
      var r := Claims.AddNode(owners, isAdmin, known, rawNode, user);
      if r.Success? {
        owners, err := r.value, None;
      } else {
        err := Some(r.error);
      }
    }

    /** /removenode. */
    method RemoveNode(isAdmin: bool, rawNode: string) returns (revokeRole: bool, err: Option<Claims.OwnershipError>)
      requires Valid()
      modifies this`owners
      ensures Valid()
      ensures var r := Claims.RemoveNode(old(owners), isAdmin, rawNode);
              && (r.Success? ==> owners == r.value.owners && revokeRole == r.value.revokeRole && err == None)
              && (r.Failure? ==> owners == old(owners) && !revokeRole && err == Some(r.error))
    {
      var r := Claims.RemoveNode(owners, isAdmin, rawNode);
      if r.Success? {
        owners, revokeRole, err := r.value.owners, r.value.revokeRole, None;
      } else {
        revokeRole, err := false, Some(r.error);
      }
    }

    /** A node announced by the radio. */
    method OnNodeUpdated(id: NodeId, radio: Option<map<NodeId, Relay.NodeInfo>>)
      requires Valid()
      modifies this`nodes
      ensures Valid()
      ensures nodes == Relay.Upsert(old(nodes), radio, id)
    {
      nodes := Relay.Upsert(nodes, radio, id);
    }

    // -------------------------------------------------------------------
    // Alerts

    /** One tick of check_alerts. */
    method CheckAlerts(now: int, channelUp: bool, meshUp: bool) returns (outbox: seq<Alerts.Delivery>)
      requires Valid()
      modifies this`alerts
      ensures Valid()
      ensures alerts == Alerts.Kept(old(alerts), now)
      ensures outbox == Alerts.Outbox(old(alerts), now, channelUp, meshUp)
    {
      alerts, outbox := Alerts.RunTick(alerts, now, channelUp, meshUp);
    }

    /** /alert. */
    method AddAlert(isAdmin: bool, message: string, frequency: string, toDiscord: bool, toMesh: bool, now: int)
      returns (err: Option<Alerts.AlertError>)
      requires Valid()
      modifies this`alerts
      ensures Valid()
      ensures var r := Alerts.AddAlert(old(alerts), isAdmin, message, frequency, toDiscord, toMesh, now);
              && (r.Success? ==> alerts == r.value && err == None)
              && (r.Failure? ==> alerts == old(alerts) && err == Some(r.error))
    {
      var r := Alerts.AddAlert(alerts, isAdmin, message, frequency, toDiscord, toMesh, now);
      if r.Success? {
        alerts, err := r.value, None;
      } else {
        err := Some(r.error);
      }
    }

    /** /deletealert, with the index counted as /listalerts numbers. */
    method DeleteAlert(isAdmin: bool, index: int, now: int) returns (removed: Option<Alerts.Alert>, err: Option<Alerts.AlertError>)
      requires Valid()
      modifies this`alerts
      ensures Valid()
      ensures var r := Alerts.DeleteAlert(old(alerts), now, isAdmin, index);
              && (r.Success? ==> alerts == r.value.1 && removed == Some(r.value.0) && err == None)
              && (r.Failure? ==> alerts == old(alerts) && removed == None && err == Some(r.error))
    {
      var r := Alerts.DeleteAlert(alerts, now, isAdmin, index);
      if r.Success? {
        alerts, removed, err := r.value.1, Some(r.value.0), None;
      } else {
        removed, err := None, Some(r.error);
      }
    }

    /** /clearalerts. */
    method ClearAlerts(isAdmin: bool) returns (err: Option<Alerts.AlertError>)
      requires Valid()
      modifies this`alerts
      ensures Valid()
      ensures var r := Alerts.ClearAlerts(old(alerts), isAdmin);
              && (r.Success? ==> alerts == [] && err == None)
              && (r.Failure? ==> alerts == old(alerts) && err == Some(r.error))
    {
      var r := Alerts.ClearAlerts(alerts, isAdmin);
      if r.Success? {
        alerts, err := [], None;
      } else {
        err := Some(r.error);
      }
    }
  }
}
