/** The setup wizard: one session per user in setup_sessions, driven by
    reactions on the session's current prompt.

    Steps are 1 Welcome, 2 ClaimNode, 2.5 AwaitingClaim, 3 Preferences and
    4 Commands; a user without a session has ended (or never started). A
    reaction is handled in the source's order: the session and prompt guard,
    then the 1800-second expiry, then the cancel emoji, then the per-step
    dispatch. A DM the bot cannot deliver (discord.Forbidden) is the input
    dmOk, which holds for all DMs of one event or for none. */
module Wizard {
  import opened Wrappers
  import opened Records
  import Claims

  /** A session idle for more than 1800 seconds expires on its next reaction. */
  const SessionTimeout: int := 1800

  datatype Step = Welcome | ClaimNode | AwaitingClaim | Preferences | Commands

  /** The reactions the wizard reads: ➡️ Next, ⬅️ Back, ❌ Cancel, ✅ Confirm. */
  datatype Emoji = Next | Back | Cancel | Confirm | OtherEmoji

  datatype Session = Session(step: Step, messageId: Option<MsgId>, nodeClaimed: bool,
                             dmNotifications: bool, timestamp: int)

  type Sessions = map<UserId, Session>

  datatype SetupError = AlreadyActive | Unreachable

  /** What one reaction does: the new session table, the claim it records
      in pending_claims, whether it starts the 300-second claim timer, and
      the preference it stores. */
  datatype Reaction = Reaction(sessions: Sessions, claim: Option<Claims.Claim>, timer: bool, saved: Option<Pref>)

  /** The transitions the wizard is meant to allow: 1-2, 2-3 and 3-4 both
      ways, 2 to 2.5, and 2.5 back to 2 (timeout) or on to 3 (claim
      completed). */
  predicate Edge(a: Step, b: Step) {
    match (a, b)
    case (Welcome, ClaimNode) => true
    case (ClaimNode, Welcome) => true
    case (ClaimNode, AwaitingClaim) => true
    case (ClaimNode, Preferences) => true
    case (AwaitingClaim, ClaimNode) => true
    case (AwaitingClaim, Preferences) => true
    case (Preferences, ClaimNode) => true
    case (Preferences, Commands) => true
    case (Commands, Preferences) => true
    case _ => false
  }

  /** What sessions at each step have been through: step 3 and 4 were
      reached by claiming (or skipping with ✅), and step 4 only by
      answering ✅ at step 3. */
  predicate Consistent(s: Session) {
    (s.step == Preferences || s.step == Commands ==> s.nodeClaimed)
    && (s.step == Commands ==> s.dmNotifications)
  }

  predicate AllConsistent(sessions: Sessions) {
    forall u :: u in sessions ==> Consistent(sessions[u])
  }

  /** The reaction is on the current prompt of the user's session. */
  predicate Addressed(sessions: Sessions, user: UserId, msgId: MsgId) {
    user in sessions && sessions[user].messageId == Some(msgId)
  }

  predicate Expired(s: Session, now: int) {
    now - s.timestamp > SessionTimeout
  }

  function Install(sessions: Sessions, user: UserId, s: Option<Session>): Sessions {
    if s.Some? then sessions[user := s.value] else sessions - {user}
  }

  /** /setup: refused while a session exists; otherwise a step-1 session
      with both flags false, unless the welcome DM cannot be delivered, in
      which case the new session is deleted again. */
  function Start(sessions: Sessions, user: UserId, now: int, dmOk: bool, freshId: MsgId): (r: Result<Sessions, SetupError>)
    ensures user in sessions ==> r == Failure(AlreadyActive)
    ensures user !in sessions && !dmOk ==> r == Failure(Unreachable)
    ensures r.Success? <==> user !in sessions && dmOk
    ensures r.Success? ==> user in r.value && r.value[user].step == Welcome && r.value[user].messageId == Some(freshId)
                           && !r.value[user].nodeClaimed && !r.value[user].dmNotifications
                           && r.value[user].timestamp == now && r.value - {user} == sessions
  {
    if user in sessions then Failure(AlreadyActive)
    else if !dmOk then Failure(Unreachable)
    else Success(sessions[user := Session(Welcome, Some(freshId), false, false, now)])
  }

  // ---------------------------------------------------------------------
  // The transition table

  datatype Move = Stay | Quit | GoTo(target: Step) | Request | Finish

  /** The move a reaction asks for at a step. ❌ is tested before the step,
      so it quits everywhere: at step 3 it is never "No" and at step 4 never
      "Finish". ✅ at step 2 skips to step 3 whether or not the user owns a
      node. */
  function MoveFor(step: Step, emoji: Emoji): (r: Move)
    ensures r == Quit <==> emoji == Cancel
    ensures r == Request <==> step == ClaimNode && emoji == Next
    ensures r == Finish <==> step == Commands && emoji == Confirm
    // any other input is ignored: each step reads only its own emojis
    ensures r == Stay <==> emoji != Cancel
                           && (step, emoji) !in {(Welcome, Next), (ClaimNode, Back), (ClaimNode, Next), (ClaimNode, Confirm),
                                                 (Preferences, Back), (Preferences, Confirm), (Commands, Back), (Commands, Confirm)}
    ensures r.GoTo? ==> Edge(step, r.target)
  {
    if emoji == Cancel then Quit
    else
      match (step, emoji)
      case (Welcome, Next) => GoTo(ClaimNode)
      case (ClaimNode, Back) => GoTo(Welcome)
      case (ClaimNode, Next) => Request
      case (ClaimNode, Confirm) => GoTo(Preferences)
      case (Preferences, Back) => GoTo(ClaimNode)
      case (Preferences, Confirm) => GoTo(Commands)
      case (Commands, Back) => GoTo(Preferences)
      case (Commands, Confirm) => Finish
      case _ => Stay
  }

  /** update_step: the new step, a refreshed timestamp and the id of the new
      prompt; the session is deleted when that prompt cannot be sent. */
  function Enter(s: Session, target: Step, now: int, dmOk: bool, freshId: MsgId): (r: Option<Session>)
    ensures r.Some? <==> dmOk
    ensures r.Some? ==> r.value.step == target && r.value.timestamp == now && r.value.messageId == Some(freshId)
                        && r.value.nodeClaimed == s.nodeClaimed && r.value.dmNotifications == s.dmNotifications
  {
    if dmOk then Some(s.(step := target, timestamp := now, messageId := Some(freshId))) else None
  }

  /** ✅ at step 2 sets node_claimed; ✅ at step 3 sets dm_notifications. */
  function Marked(s: Session, target: Step): Session {
    if s.step == ClaimNode && target == Preferences then s.(nodeClaimed := true)
    else if s.step == Preferences && target == Commands then s.(dmNotifications := true)
    else s
  }

  /** The effect of a move on an addressed, unexpired session. */
  function Apply(s: Session, move: Move, now: int, dmOk: bool, radioUp: bool, hasPending: bool,
                 code: string, freshId: MsgId): (r: (Option<Session>, Option<Claims.Claim>, bool, Option<Pref>))
    // a claim is recorded exactly for an accepted request, and the timer
    // runs exactly when its DMs went through as well
    ensures r.1.Some? <==> move == Request && radioUp && !hasPending
    ensures r.1.Some? ==> r.1.value == Claims.Claim(code, now)
    ensures r.2 <==> r.1.Some? && dmOk
    // only Finish stores a preference: the session's dm_notifications; the session ends
    ensures r.3.Some? <==> move == Finish
    ensures move == Finish ==> r.3 == Some(Pref(s.dmNotifications)) && r.0 == None
  {
    match move
    case Stay => (Some(s), None, false, None)
    case Quit => (None, None, false, None)
    case GoTo(t) => (Enter(Marked(s, t), t, now, dmOk, freshId), None, false, None)
    case Request =>
      if !radioUp then (None, None, false, None)
      else if hasPending then (if dmOk then Some(s) else None, None, false, None)
      else if dmOk then
        (Some(s.(step := AwaitingClaim, messageId := Some(freshId), timestamp := now)),
         Some(Claims.Claim(code, now)), true, None)
      else (None, Some(Claims.Claim(code, now)), false, None)
    case Finish => (None, None, false, Some(Pref(s.dmNotifications)))
  }

  /** handle_setup_reaction on the whole session table. */
  function React(sessions: Sessions, user: UserId, msgId: MsgId, emoji: Emoji, now: int, dmOk: bool,
                 radioUp: bool, hasPending: bool, code: string, freshId: MsgId): (r: Reaction)
    // the guard: a reaction on anything but the current prompt is ignored
    ensures !Addressed(sessions, user, msgId) ==> r == Reaction(sessions, None, false, None)
    // expiry short-circuits every step
    ensures Addressed(sessions, user, msgId) && Expired(sessions[user], now)
            ==> r == Reaction(sessions - {user}, None, false, None)
    // ❌ ends the session at every step, 2.5 included
    ensures Addressed(sessions, user, msgId) && !Expired(sessions[user], now) && emoji == Cancel
            ==> r == Reaction(sessions - {user}, None, false, None)
    // step 2.5 ignores every other input
    ensures (Addressed(sessions, user, msgId) && !Expired(sessions[user], now) && emoji != Cancel
             && sessions[user].step == AwaitingClaim) ==> r == Reaction(sessions, None, false, None)
    // a claim is recorded only when none is pending; the timer runs for it
    // exactly when the session moves to 2.5
    ensures r.claim.Some? ==> !hasPending && r.claim.value == Claims.Claim(code, now)
    ensures r.timer ==> r.claim.Some? && user in r.sessions && r.sessions[user].step == AwaitingClaim
    ensures user in r.sessions && r.sessions[user].step == AwaitingClaim
            ==> r.timer || (r.claim.None? && user in sessions && r.sessions[user] == sessions[user])
    // other users' sessions are untouched
    ensures forall v :: v != user ==> (v in r.sessions <==> v in sessions)
    ensures forall v :: v != user && v in sessions ==> r.sessions[v] == sessions[v]
    // step 4 ✅ and nothing else stores a preference: the session's
    // dm_notifications, and the session ends
    ensures r.saved.Some? <==> (Addressed(sessions, user, msgId) && !Expired(sessions[user], now)
                                && emoji == Confirm && sessions[user].step == Commands)
    ensures r.saved.Some? ==> r.saved.value == Pref(sessions[user].dmNotifications) && user !in r.sessions
  {
    if !Addressed(sessions, user, msgId) then Reaction(sessions, None, false, None)
    else
      var s := sessions[user];
      if Expired(s, now) then Reaction(sessions - {user}, None, false, None)
      else
        var (next, claim, timer, saved) := Apply(s, MoveFor(s.step, emoji), now, dmOk, radioUp, hasPending, code, freshId);
        Reaction(Install(sessions, user, next), claim, timer, saved)
  }

  /** The table read row by row, for a user whose DMs go through. */
  lemma TransitionTable(s: Session, now: int, radioUp: bool, hasPending: bool, code: string, freshId: MsgId)
    ensures var go := (e: Emoji) => Apply(s, MoveFor(s.step, e), now, true, radioUp, hasPending, code, freshId).0;
            && (s.step == Welcome ==> go(Next) == Some(s.(step := ClaimNode, timestamp := now, messageId := Some(freshId))))
            && (s.step == ClaimNode ==> go(Back) == Some(s.(step := Welcome, timestamp := now, messageId := Some(freshId))))
            && (s.step == ClaimNode ==> go(Confirm) == Some(s.(step := Preferences, nodeClaimed := true, timestamp := now, messageId := Some(freshId))))
            && (s.step == ClaimNode && radioUp && !hasPending ==> go(Next) == Some(s.(step := AwaitingClaim, timestamp := now, messageId := Some(freshId))))
            && (s.step == ClaimNode && radioUp && hasPending ==> go(Next) == Some(s))
            && (s.step == ClaimNode && !radioUp ==> go(Next) == None)
            && (s.step == Preferences ==> go(Back) == Some(s.(step := ClaimNode, timestamp := now, messageId := Some(freshId))))
            && (s.step == Preferences ==> go(Confirm) == Some(s.(step := Commands, dmNotifications := true, timestamp := now, messageId := Some(freshId))))
            && (s.step == Commands ==> go(Back) == Some(s.(step := Preferences, timestamp := now, messageId := Some(freshId))))
            && (s.step == Commands ==> go(Confirm) == None)
            && (s.step == Commands
                ==> Apply(s, MoveFor(s.step, Confirm), now, true, radioUp, hasPending, code, freshId).3 == Some(Pref(s.dmNotifications)))
  {
  }

  /** Requesting a claim at step 2 (➡️): nothing happens while a claim is
      pending; otherwise the claim is recorded (even if the DM with the code
      fails), and the wizard moves to 2.5 and starts the timer exactly when
      the DMs go through. */
  lemma {:induction false} RequestLifecycle(sessions: Sessions, user: UserId, msgId: MsgId, now: int, dmOk: bool,
                                            hasPending: bool, code: string, freshId: MsgId)
    requires Addressed(sessions, user, msgId) && !Expired(sessions[user], now) && sessions[user].step == ClaimNode
    ensures var r := React(sessions, user, msgId, Next, now, dmOk, true, hasPending, code, freshId);
            && r.saved == None
            && (hasPending ==> r.claim == None && !r.timer && r.sessions == (if dmOk then sessions else sessions - {user}))
            && (!hasPending ==> r.claim == Some(Claims.Claim(code, now)) && r.timer == dmOk
                                && (dmOk <==> user in r.sessions)
                                && (dmOk ==> r.sessions[user].step == AwaitingClaim && r.sessions[user].timestamp == now))
  {
    var s := sessions[user];
    assert MoveFor(s.step, Next) == Request;
  }

  /** Every change a reaction makes to a session that survives it refreshes
      the session's timestamp and points it at the newly sent prompt. */
  lemma {:induction false} ChangeRefreshes(sessions: Sessions, user: UserId, msgId: MsgId, emoji: Emoji, now: int, dmOk: bool,
                                           radioUp: bool, hasPending: bool, code: string, freshId: MsgId)
    requires user in sessions
    ensures var r := React(sessions, user, msgId, emoji, now, dmOk, radioUp, hasPending, code, freshId);
            user in r.sessions && r.sessions[user] != sessions[user]
            ==> r.sessions[user].timestamp == now && r.sessions[user].messageId == Some(freshId)
  {
    if Addressed(sessions, user, msgId) && !Expired(sessions[user], now) {
      var s := sessions[user];
      match MoveFor(s.step, emoji)
      case GoTo(t) => assert Marked(s, t).step == s.step;
      case _ =>
    }
  }

  /** When the user's DMs are blocked a reaction can only leave the session
      as it was or end it: every prompt send fails, and failure deletes. */
  lemma {:induction false} BlockedDmsEnd(sessions: Sessions, user: UserId, msgId: MsgId, emoji: Emoji, now: int,
                                         radioUp: bool, hasPending: bool, code: string, freshId: MsgId)
    requires user in sessions
    ensures var r := React(sessions, user, msgId, emoji, now, false, radioUp, hasPending, code, freshId);
            user in r.sessions ==> r.sessions[user] == sessions[user]
  {
    if Addressed(sessions, user, msgId) && !Expired(sessions[user], now) {
      var s := sessions[user];
      assert MoveFor(s.step, emoji).Stay? || Apply(s, MoveFor(s.step, emoji), now, false, radioUp, hasPending, code, freshId).0 == None;
    }
  }

  /** Reactions never leave the transition graph: a session that survives a
      reaction is at the same step or one Edge away. */
  lemma {:induction false} ReactFollowsEdges(sessions: Sessions, user: UserId, msgId: MsgId, emoji: Emoji, now: int, dmOk: bool,
                                             radioUp: bool, hasPending: bool, code: string, freshId: MsgId)
    requires user in sessions
    ensures var r := React(sessions, user, msgId, emoji, now, dmOk, radioUp, hasPending, code, freshId);
            user in r.sessions ==> r.sessions[user].step == sessions[user].step || Edge(sessions[user].step, r.sessions[user].step)
  {
    if Addressed(sessions, user, msgId) && !Expired(sessions[user], now) {
      var s := sessions[user];
      match MoveFor(s.step, emoji)
      case GoTo(t) => assert Edge(s.step, t);
      case _ =>
    }
  }

  /** Reactions keep every session Consistent. */
  lemma {:induction false} ReactConsistent(sessions: Sessions, user: UserId, msgId: MsgId, emoji: Emoji, now: int, dmOk: bool,
                                           radioUp: bool, hasPending: bool, code: string, freshId: MsgId)
    requires AllConsistent(sessions)
    ensures AllConsistent(React(sessions, user, msgId, emoji, now, dmOk, radioUp, hasPending, code, freshId).sessions)
  {
    if Addressed(sessions, user, msgId) && !Expired(sessions[user], now) {
      var s := sessions[user];
      assert Consistent(s);
      match MoveFor(s.step, emoji)
      case GoTo(t) =>
        assert Enter(Marked(s, t), t, now, dmOk, freshId).Some? ==> Consistent(Enter(Marked(s, t), t, now, dmOk, freshId).value);
      case _ =>
    }
  }

  /** The wizard only ever stores dm_notifications = true: step 4 is reached
      only through ✅ at step 3, and the ❌ "No" option is a cancel. */
  lemma {:induction false} WizardSavesOnlyYes(sessions: Sessions, user: UserId, msgId: MsgId, emoji: Emoji, now: int, dmOk: bool,
                                              radioUp: bool, hasPending: bool, code: string, freshId: MsgId)
    requires AllConsistent(sessions)
    ensures var r := React(sessions, user, msgId, emoji, now, dmOk, radioUp, hasPending, code, freshId);
            r.saved.Some? ==> r.saved.value.dmNotifications
  {
    if Addressed(sessions, user, msgId) && !Expired(sessions[user], now) {
      assert Consistent(sessions[user]);
    }
  }

  // ---------------------------------------------------------------------
  // Events from the claim coordinator

  /** A claim completed for user: node_claimed is set on the user's session
      whatever its step, and a session waiting at 2.5 moves to step 3 with
      the preferences prompt. */
  function Claimed(sessions: Sessions, user: UserId, now: int, freshId: MsgId): (r: Sessions)
    ensures r.Keys == sessions.Keys
    ensures forall v :: v in sessions && v != user ==> r[v] == sessions[v]
    ensures user in sessions ==> r[user].nodeClaimed
    ensures user in sessions && sessions[user].step == AwaitingClaim
            ==> r[user] == sessions[user].(step := Preferences, nodeClaimed := true, timestamp := now, messageId := Some(freshId))
    ensures user in sessions && sessions[user].step != AwaitingClaim
            ==> r[user] == sessions[user].(nodeClaimed := true)
  {
    if user !in sessions then sessions
    else
      var s := sessions[user].(nodeClaimed := true);
      if s.step == AwaitingClaim then sessions[user := s.(step := Preferences, timestamp := now, messageId := Some(freshId))]
      else sessions[user := s]
  }

  /** The end of the 300-second wait, once the pending claim is found
      still there: a session still at 2.5 goes back to step 2. */
  function TimedOut(sessions: Sessions, user: UserId, now: int, dmOk: bool, freshId: MsgId): (r: Sessions)
    ensures forall v :: v != user ==> (v in r <==> v in sessions)
    ensures forall v :: v in sessions && v != user ==> r[v] == sessions[v]
    ensures user in sessions && sessions[user].step != AwaitingClaim ==> r == sessions
    ensures user !in sessions ==> r == sessions
    ensures user in sessions && sessions[user].step == AwaitingClaim
            ==> (user in r <==> dmOk)
                && (dmOk ==> r[user] == sessions[user].(step := ClaimNode, timestamp := now, messageId := Some(freshId)))
  {
    if user in sessions && sessions[user].step == AwaitingClaim
    then Install(sessions, user, Enter(sessions[user], ClaimNode, now, dmOk, freshId))
    else sessions
  }

  /** Claim completion and timeout also follow the graph and keep sessions
      Consistent. */
  lemma {:induction false} ClaimEventsFollowEdges(sessions: Sessions, user: UserId, now: int, dmOk: bool, freshId: MsgId)
    requires AllConsistent(sessions)
    ensures AllConsistent(Claimed(sessions, user, now, freshId)) && AllConsistent(TimedOut(sessions, user, now, dmOk, freshId))
    ensures user in sessions ==> var c := Claimed(sessions, user, now, freshId)[user];
            c.step == sessions[user].step || Edge(sessions[user].step, c.step)
    ensures user in TimedOut(sessions, user, now, dmOk, freshId) && user in sessions
            ==> var t := TimedOut(sessions, user, now, dmOk, freshId)[user];
                t.step == sessions[user].step || Edge(sessions[user].step, t.step)
  {
    var c := Claimed(sessions, user, now, freshId);
    forall v | v in c ensures Consistent(c[v]) {
      assert Consistent(sessions[v]);
    }
  }
}
