/** The claim coordinator: pending pairing codes (pending_claims, user ->
    {code, timestamp}) and node ownership (owners, node -> user).

    A claim is requested from the setup wizard or from /claimnode and is
    consumed by the first mesh text equal to an unexpired code. The
    ownership admin commands /addnode, /removenode and /releasenode live
    here too. */
module Claims {
  import opened Wrappers
  import opened Records
  import opened OrderedMaps
  import opened Text

  /** A code is accepted only while now - timestamp < 300 (strictly). */
  const ClaimWindow: int := 300

  datatype Claim = Claim(code: string, timestamp: int)

  /** pending_claims: at most one claim per user, in request order. */
  type Pending = ODict<UserId, Claim>

  /** owners: at most one owner per node, in insertion order. */
  type Owners = ODict<NodeId, UserId>

  datatype ClaimError = AlreadyPending | RadioDown

  datatype OwnershipError = NotAdmin | UnknownNode | NoOwner | OwnsNothing

  /** The result of taking a node away from its owner. revokeRole is the
      condition under which the bot removes the Node Owner role. */
  datatype Removal = Removal(owners: Owners, node: NodeId, former: UserId, revokeRole: bool)

  predicate Live(c: Claim, now: int) {
    now - c.timestamp < ClaimWindow
  }

  /** The test applied to each pending claim by the mesh text handler. */
  predicate Matches(c: Claim, text: string, now: int) {
    text == c.code && Live(c, now)
  }

  lemma DistinctIndex<K>(s: seq<K>, i: nat)
    requires Distinct(s) && i < |s|
    ensures IndexOf(s, s[i]) == i
  {
  }

  /** The first position at or after i whose claim matches the text. */
  function FirstMatchFrom(p: Pending, text: string, now: int, i: nat): (r: Option<nat>)
    requires p.Valid() && i <= |p.keys|
    ensures r.Some? ==> i <= r.value < |p.keys| && Matches(p.vals[p.keys[r.value]], text, now)
    ensures r.Some? ==> forall j :: i <= j < r.value ==> !Matches(p.vals[p.keys[j]], text, now)
    ensures r.None? ==> forall j :: i <= j < |p.keys| ==> !Matches(p.vals[p.keys[j]], text, now)
    decreases |p.keys| - i
  {
    if i == |p.keys| then None
    else if Matches(p.vals[p.keys[i]], text, now) then Some(i)
    else FirstMatchFrom(p, text, now, i + 1)
  }

  /** The user whose claim a mesh text consumes: the first pending claim, in
      request order, whose code equals the text and which has not expired.
      A text is accepted if and only if some unexpired claim carries it. */
  function FirstMatch(p: Pending, text: string, now: int): (r: Option<UserId>)
    requires p.Valid()
    ensures r.Some? ==> r.value in p.vals && Matches(p.vals[r.value], text, now)
    ensures r.Some? ==> forall j :: 0 <= j < IndexOf(p.keys, r.value) ==> !Matches(p.vals[p.keys[j]], text, now)
    ensures r.None? <==> forall u :: u in p.vals ==> !Matches(p.vals[u], text, now)
  {
    match FirstMatchFrom(p, text, now, 0)
    case None => None
    case Some(i) => DistinctIndex(p.keys, i); Some(p.keys[i])
  }

  /** The scan of on_meshtastic_message_async over list(pending_claims.items()),
      stopping at the first match. */
  method FindClaim(p: Pending, text: string, now: int) returns (r: Option<UserId>)
    requires p.Valid()
    ensures r == FirstMatch(p, text, now)
  {
    var i := 0;
    while i < |p.keys|
      invariant 0 <= i <= |p.keys|
      invariant FirstMatchFrom(p, text, now, i) == FirstMatchFrom(p, text, now, 0)
    {
      var user := p.keys[i];
      if Matches(p.vals[user], text, now) {
        return Some(user);
      }
      i := i + 1;
    }
    return None;
  }

  /** Issuing a code (wizard step 2 and /claimnode): refused while the user
      has any pending claim, expired or not. */
  function RequestClaim(p: Pending, user: UserId, code: string, now: int): (r: Result<Pending, ClaimError>)
    requires p.Valid()
    ensures r.Failure? <==> user in p.vals
    ensures r.Failure? ==> r.error == AlreadyPending
    ensures r.Success? ==> r.value.Valid() && r.value.vals == p.vals[user := Claim(code, now)]
                           && r.value.keys == p.keys + [user]
  {
    if user in p.vals then Failure(AlreadyPending) else Success(p.Put(user, Claim(code, now)))
  }

  /** /claimnode: the radio must be connected, then as RequestClaim. The
      claim is recorded before the DM with the code is sent, so it stays
      even when that DM fails. */
  function ClaimNode(p: Pending, user: UserId, code: string, now: int, radioUp: bool): (r: Result<Pending, ClaimError>)
    requires p.Valid()
    ensures !radioUp ==> r == Failure(RadioDown)
    ensures radioUp ==> r == RequestClaim(p, user, code, now)
  {
    if !radioUp then Failure(RadioDown) else RequestClaim(p, user, code, now)
  }

  /** Codes are random; distinct pending claims carry distinct codes. */
  ghost predicate CodesUnique(p: Pending) {
    forall u, v :: u in p.vals && v in p.vals && u != v ==> p.vals[u].code != p.vals[v].code
  }

  /** Acceptance is exactly once: once the matching claim is removed, the
      same text, at any later time, matches no pending claim. */
  lemma {:induction false} ClaimConsumedOnce(p: Pending, text: string, now: int, later: int)
    requires p.Valid() && CodesUnique(p) && FirstMatch(p, text, now).Some?
    ensures FirstMatch(p.Remove(FirstMatch(p, text, now).value), text, later) == None
  {
    var u := FirstMatch(p, text, now).value;
    var q := p.Remove(u);
    forall v | v in q.vals
      ensures !Matches(q.vals[v], text, later)
    {
      assert v in p.vals && v != u && q.vals[v] == p.vals[v];
    }
  }

  /** A claim that has expired can no longer be consumed, yet it keeps
      blocking new requests from the same user: only the wizard's timeout
      deletes a pending claim, so one made with /claimnode that is never
      matched stays in the table. */
  lemma StaleClaimBlocks(p: Pending, user: UserId, text: string, code: string, later: int)
    requires p.Valid() && user in p.vals && !Live(p.vals[user], later)
    ensures FirstMatch(p, text, later) != Some(user)
    ensures RequestClaim(p, user, code, later) == Failure(AlreadyPending)
  {
  }

  /** The wizard's claim timer as written: 300 seconds after requesting, it
      deletes whatever claim the user has pending at that moment. */
  function ExpireAsWritten(p: Pending, user: UserId): (r: Pending)
    requires p.Valid()
    ensures r.Valid() && r.vals == p.vals - {user}
    ensures user !in p.vals ==> r == p
    ensures user in p.vals ==> var i := IndexOf(p.keys, user); r.keys == p.keys[..i] + p.keys[i + 1..]
  {
    p.Remove(user)
  }

  /** A timer started at 0 for a claim that was consumed within its five
      minutes fires at 300 and deletes the user's next claim, made at 30 and
      only 270 seconds old; the intended timer leaves it alone. */
  lemma TimerKillsNewerClaim()
    ensures var newer := Claim("b7c1", 30);
            var p := ODict(["u"], map["u" := newer]);
            && Live(newer, 300) && p.Valid()
            && "u" !in ExpireAsWritten(p, "u").vals
            && Expire(p, "u", Claim("a0f3", 0)) == p
  {
    var p := ODict(["u"], map["u" := Claim("b7c1", 30)]);
    assert p.Valid();
  }

  /** The timer as intended: it deletes only the claim it was started for. */
  function Expire(p: Pending, user: UserId, claim: Claim): (r: Pending)
    requires p.Valid()
    ensures r.Valid()
    ensures user in p.vals && p.vals[user] == claim ==> r.vals == p.vals - {user}
    ensures user in p.vals && p.vals[user] == claim ==>
              var i := IndexOf(p.keys, user); r.keys == p.keys[..i] + p.keys[i + 1..]
    ensures !(user in p.vals && p.vals[user] == claim) ==> r == p
  {
    if user in p.vals && p.vals[user] == claim then p.Remove(user) else p
  }

  /** Once the timer's own claim is 300 seconds old, firing it never
      removes a claim that could still be accepted. */
  lemma {:induction false} ExpireSparesLiveClaims(p: Pending, user: UserId, claim: Claim, now: int)
    requires p.Valid() && now - claim.timestamp >= ClaimWindow
    ensures forall v :: v in p.vals && Live(p.vals[v], now)
                        ==> (v in Expire(p, user, claim).vals && Expire(p, user, claim).vals[v] == p.vals[v])
  {
    var r := Expire(p, user, claim);
    forall v | v in p.vals && Live(p.vals[v], now)
      ensures v in r.vals && r.vals[v] == p.vals[v]
    {
      assert v == user ==> p.vals[v] != claim;
    }
  }

  // ---------------------------------------------------------------------
  // Ownership

  /** The nodes a user owns. */
  function OwnedBy(owners: Owners, user: UserId): (r: set<NodeId>)
    ensures r <= owners.vals.Keys
  {
    set n | n in owners.vals && owners.vals[n] == user
  }

  /** The first position at or after i holding a node owned by user. */
  function FirstOwnedFrom(owners: Owners, user: UserId, i: nat): (r: Option<nat>)
    requires owners.Valid() && i <= |owners.keys|
    ensures r.Some? ==> i <= r.value < |owners.keys| && owners.vals[owners.keys[r.value]] == user
    ensures r.Some? ==> forall j :: i <= j < r.value ==> owners.vals[owners.keys[j]] != user
    ensures r.None? ==> forall j :: i <= j < |owners.keys| ==> owners.vals[owners.keys[j]] != user
    decreases |owners.keys| - i
  {
    if i == |owners.keys| then None
    else if owners.vals[owners.keys[i]] == user then Some(i)
    else FirstOwnedFrom(owners, user, i + 1)
  }

  /** The first node, in insertion order, that the user owns. */
  function FirstOwned(owners: Owners, user: UserId): (r: Option<NodeId>)
    requires owners.Valid()
    ensures r.Some? ==> r.value in OwnedBy(owners, user)
    ensures r.Some? ==> forall j :: 0 <= j < IndexOf(owners.keys, r.value) ==> owners.vals[owners.keys[j]] != user
    ensures r.None? <==> OwnedBy(owners, user) == {}
  {
    match FirstOwnedFrom(owners, user, 0)
    case None =>
      assert forall n :: n in owners.vals ==> n == owners.keys[IndexOf(owners.keys, n)];
      None
    case Some(i) => DistinctIndex(owners.keys, i); Some(owners.keys[i])
  }

  /** Deleting a node's owner, and whether that owner is left with none. */
  function TakeAway(owners: Owners, node: NodeId): (r: Removal)
    requires owners.Valid() && node in owners.vals
    ensures r.owners == owners.Remove(node) && r.node == node && r.former == owners.vals[node]
    ensures OwnedBy(r.owners, r.former) == OwnedBy(owners, r.former) - {node}
    ensures r.revokeRole <==> OwnedBy(r.owners, r.former) == {}
  {
    var user := owners.vals[node];
    var rest := owners.Remove(node);
    var revoke := !(user in rest.vals.Values);
    assert revoke <==> OwnedBy(rest, user) == {} by {
      if user in rest.vals.Values {
        var n :| n in rest.vals && rest.vals[n] == user;
        assert n in OwnedBy(rest, user);
      }
    }
    Removal(rest, node, user, revoke)
  }

  /** /addnode: admin only; the node must be one the radio knows (none are
      known while it is disconnected); the previous owner, if any, is
      overwritten. */
  function AddNode(owners: Owners, isAdmin: bool, known: set<NodeId>, rawNode: string, user: UserId): (r: Result<Owners, OwnershipError>)
    requires owners.Valid()
    ensures !isAdmin ==> r == Failure(NotAdmin)
    ensures isAdmin && Strip(rawNode) !in known ==> r == Failure(UnknownNode)
    ensures r.Success? <==> isAdmin && Strip(rawNode) in known
    ensures r.Success? ==> r.value.Valid() && r.value.vals == owners.vals[Strip(rawNode) := user]
    // a node that already had an owner keeps its place in the table; a new one goes last
    ensures r.Success? ==> r.value.keys == if Strip(rawNode) in owners.vals then owners.keys else owners.keys + [Strip(rawNode)]
    ensures r.Success? ==> OwnedBy(r.value, user) == OwnedBy(owners, user) + {Strip(rawNode)}
  {
    if !isAdmin then Failure(NotAdmin)
    else
      var node := Strip(rawNode);
      if node !in known then Failure(UnknownNode)
      else Success(owners.Put(node, user))
  }

  /** /removenode: admin only; fails when the node has no owner. */
  function RemoveNode(owners: Owners, isAdmin: bool, rawNode: string): (r: Result<Removal, OwnershipError>)
    requires owners.Valid()
    ensures !isAdmin ==> r == Failure(NotAdmin)
    ensures isAdmin && Strip(rawNode) !in owners.vals ==> r == Failure(NoOwner)
    ensures r.Success? <==> isAdmin && Strip(rawNode) in owners.vals
    ensures r.Success? ==> r.value.node == Strip(rawNode) && r.value == TakeAway(owners, Strip(rawNode))
    ensures r.Success? ==> r.value.node !in r.value.owners.vals
  {
    if !isAdmin then Failure(NotAdmin)
    else
      var node := Strip(rawNode);
      if node !in owners.vals then Failure(NoOwner) else Success(TakeAway(owners, node))
  }

  /** /releasenode: the caller gives up the first node they own. The source
      tests the found node id for truthiness, so a node whose id is the
      empty string counts as not found. */
  function ReleaseNode(owners: Owners, user: UserId): (r: Result<Removal, OwnershipError>)
    requires owners.Valid()
    ensures r.Failure? <==> FirstOwned(owners, user) in {None, Some("")}
    ensures r.Failure? ==> r.error == OwnsNothing
    ensures r.Success? ==> r.value == TakeAway(owners, FirstOwned(owners, user).value)
    ensures r.Success? ==> r.value.former == user && r.value.node in OwnedBy(owners, user)
  {
    match FirstOwned(owners, user)
    case None => Failure(OwnsNothing)
    case Some(node) => if node == "" then Failure(OwnsNothing) else Success(TakeAway(owners, node))
  }

  /** /releasenode frees the oldest of the caller's nodes: every node ahead
      of it in the table belongs to someone else, and the role is revoked
      exactly when it was the caller's only node. */
  lemma {:induction false} ReleaseTakesFirst(owners: Owners, user: UserId)
    requires owners.Valid() && ReleaseNode(owners, user).Success?
    ensures var r := ReleaseNode(owners, user).value;
            (forall j :: 0 <= j < IndexOf(owners.keys, r.node) ==> owners.vals[owners.keys[j]] != user)
            && (r.revokeRole <==> OwnedBy(owners, user) == {r.node})
  {
    var r := ReleaseNode(owners, user).value;
    assert r.node in OwnedBy(owners, user);
    assert OwnedBy(r.owners, user) == OwnedBy(owners, user) - {r.node};
  }
}
