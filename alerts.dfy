/** Scheduled alerts (alerts.json) and the commands that edit them.

    Every 60 seconds check_alerts fires each due alert to the Discord
    channel and/or the mesh (channel index 0), drops due one-time alerts,
    advances recurring ones by their interval and saves the list. Alerts
    are kept as stored: the frequency is the stored string, so a value
    other than the four names (possible only in a hand-edited file) is
    carried through as the source does. */
module Alerts {
  import opened Wrappers
  import opened Sequences
  import Text

  /** Mesh alerts always go out on channel index 0. */
  const MeshAlertChannel: int := 0

  datatype Alert = Alert(message: string, frequency: string, toDiscord: bool, toMesh: bool, nextRun: int)

  /** An outbound event of the scheduler. */
  datatype Delivery = Post(text: string) | MeshBroadcast(text: string, channel: int)

  /** The increments of next_run; any other frequency is not advanced. */
  function Interval(frequency: string): int {
    if frequency == "hourly" then 3600
    else if frequency == "daily" then 86400
    else if frequency == "weekly" then 604800
    else 0
  }

  predicate Due(a: Alert, now: int) {
    now >= a.nextRun
  }

  /** The /listalerts criterion. */
  predicate Active(a: Alert, now: int) {
    a.frequency != "once" || a.nextRun > now
  }

  // ---------------------------------------------------------------------
  // One tick of check_alerts

  /** What the tick stores for one alert. */
  function Survivor(a: Alert, now: int): seq<Alert> {
    if !Due(a, now) then [a]
    else if a.frequency == "once" then []
    else [a.(nextRun := a.nextRun + Interval(a.frequency))]
  }

  /** What the tick sends for one alert: the channel post when the alert
      goes to Discord and the channel is reachable, then the mesh broadcast
      when it goes to the mesh and the radio is connected. */
  function Sends(a: Alert, now: int, channelUp: bool, meshUp: bool): seq<Delivery> {
    if !Due(a, now) then [] else Deliveries(a, channelUp, meshUp)
  }

  /** What firing an alert sends. */
  function Deliveries(a: Alert, channelUp: bool, meshUp: bool): seq<Delivery> {
    (if a.toDiscord && channelUp then [Post(a.message)] else [])
    + (if a.toMesh && meshUp then [MeshBroadcast(a.message, MeshAlertChannel)] else [])
  }

  /** The list the tick saves: it never grows. */
  function Kept(alerts: seq<Alert>, now: int): (r: seq<Alert>)
    ensures |r| <= |alerts|
  {
    FlatMapBounded(alerts, a => Survivor(a, now), 1);
    FlatMap(alerts, a => Survivor(a, now))
  }

  /** What the tick sends: at most a post and a broadcast per alert. */
  function Outbox(alerts: seq<Alert>, now: int, channelUp: bool, meshUp: bool): (r: seq<Delivery>)
    ensures |r| <= 2 * |alerts|
  {
    FlatMapBounded(alerts, a => Sends(a, now, channelUp, meshUp), 2);
    FlatMap(alerts, a => Sends(a, now, channelUp, meshUp))
  }

  function Fired(alerts: seq<Alert>, now: int): seq<Alert> {
    FlatMap(alerts, a => if Due(a, now) then [a] else [])
  }

  /** The body of check_alerts' for-loop over the loaded alerts. */
  method RunTick(alerts: seq<Alert>, now: int, channelUp: bool, meshUp: bool) returns (updated: seq<Alert>, outbox: seq<Delivery>)
    ensures updated == Kept(alerts, now)
    ensures outbox == Outbox(alerts, now, channelUp, meshUp)
  {
    updated := [];
    outbox := [];
    var i := 0;
    while i < |alerts|
      invariant 0 <= i <= |alerts|
      invariant updated == Kept(alerts[..i], now)
      invariant outbox == Outbox(alerts[..i], now, channelUp, meshUp)
    {
      var alert := alerts[i];
      ghost var before, sent := updated, outbox;
      if now >= alert.nextRun {
        if alert.toDiscord && channelUp {
          outbox := outbox + [Post(alert.message)];
        }
        if alert.toMesh && meshUp {
          outbox := outbox + [MeshBroadcast(alert.message, MeshAlertChannel)];
        }
        if alert.frequency != "once" {
          if alert.frequency == "hourly" {
            alert := alert.(nextRun := alert.nextRun + 3600);
          } else if alert.frequency == "daily" {
            alert := alert.(nextRun := alert.nextRun + 86400);
          } else if alert.frequency == "weekly" {
            alert := alert.(nextRun := alert.nextRun + 604800);
          }
          updated := updated + [alert];
        }
      } else {
        updated := updated + [alert];
      }
      assert updated == before + Survivor(alerts[i], now);
      assert outbox == sent + Sends(alerts[i], now, channelUp, meshUp);
      TickStep(alerts, i, now, channelUp, meshUp);
      i := i + 1;
    }
    assert alerts[..i] == alerts;
  }

  /** One more alert of the loop: its survivor and its sends are appended. */
  lemma TickStep(alerts: seq<Alert>, i: nat, now: int, channelUp: bool, meshUp: bool)
    requires i < |alerts|
    ensures Kept(alerts[..i + 1], now) == Kept(alerts[..i], now) + Survivor(alerts[i], now)
    ensures Outbox(alerts[..i + 1], now, channelUp, meshUp)
            == Outbox(alerts[..i], now, channelUp, meshUp) + Sends(alerts[i], now, channelUp, meshUp)
  {
    assert alerts[..i + 1][..i] == alerts[..i];
  }

  /** The tick's rule for a single alert: what it stores and what it sends. */
  lemma {:induction false} TickRule(a: Alert, now: int, channelUp: bool, meshUp: bool)
    ensures !Due(a, now) ==> Outbox([a], now, channelUp, meshUp) == []
    ensures Due(a, now) ==> Outbox([a], now, channelUp, meshUp)
                            == (if a.toDiscord && channelUp then [Post(a.message)] else [])
                               + (if a.toMesh && meshUp then [MeshBroadcast(a.message, MeshAlertChannel)] else [])
    ensures !Due(a, now) ==> Kept([a], now) == [a]
    ensures Due(a, now) && a.frequency == "once" ==> Kept([a], now) == []
    ensures Due(a, now) && a.frequency == "hourly" ==> Kept([a], now) == [a.(nextRun := a.nextRun + 3600)]
    ensures Due(a, now) && a.frequency == "daily" ==> Kept([a], now) == [a.(nextRun := a.nextRun + 86400)]
    ensures Due(a, now) && a.frequency == "weekly" ==> Kept([a], now) == [a.(nextRun := a.nextRun + 604800)]
    ensures Due(a, now) && a.frequency !in {"once", "hourly", "daily", "weekly"} ==> Kept([a], now) == [a]
  {
    FlatMapSingle(a, a => Survivor(a, now));
    FlatMapSingle(a, a => Sends(a, now, channelUp, meshUp));
  }

  /** The tick handles alerts independently and keeps their order: the
      result for a concatenation is the concatenation of the results. */
  lemma {:induction false} TickKeepsOrder(xs: seq<Alert>, ys: seq<Alert>, now: int, channelUp: bool, meshUp: bool)
    ensures Kept(xs + ys, now) == Kept(xs, now) + Kept(ys, now)
    ensures Outbox(xs + ys, now, channelUp, meshUp) == Outbox(xs, now, channelUp, meshUp) + Outbox(ys, now, channelUp, meshUp)
    ensures Fired(xs + ys, now) == Fired(xs, now) + Fired(ys, now)
  {
    FlatMapAppend(xs, ys, a => Survivor(a, now));
    FlatMapAppend(xs, ys, a => Sends(a, now, channelUp, meshUp));
    FlatMapAppend(xs, ys, a => if Due(a, now) then [a] else []);
  }

  /** What the tick sends is what firing the due alerts sends, in stored
      order, and nothing else. */
  lemma {:induction false} OutboxIsFiredSends(alerts: seq<Alert>, now: int, channelUp: bool, meshUp: bool)
    ensures Outbox(alerts, now, channelUp, meshUp) == FlatMap(Fired(alerts, now), a => Deliveries(a, channelUp, meshUp))
    decreases |alerts|
  {
    if alerts != [] {
      var n := |alerts| - 1;
      var init, last := alerts[..n], alerts[n];
      var d := a => Deliveries(a, channelUp, meshUp);
      var fired := if Due(last, now) then [last] else [];
      OutboxIsFiredSends(init, now, channelUp, meshUp);
      assert Fired(alerts, now) == Fired(init, now) + fired;
      FlatMapAppend(Fired(init, now), fired, d);
      if Due(last, now) {
        FlatMapSingle(last, d);
      }
    }
  }

  /** Exactly the due alerts fire, and each one that fires is posted to the
      channel and broadcast on the mesh as its flags and the links allow. */
  lemma {:induction false} EveryDueAlertFires(alerts: seq<Alert>, now: int, channelUp: bool, meshUp: bool, a: Alert)
    ensures a in Fired(alerts, now) <==> a in alerts && Due(a, now)
    ensures a in alerts && Due(a, now) && a.toDiscord && channelUp ==> Post(a.message) in Outbox(alerts, now, channelUp, meshUp)
    ensures a in alerts && Due(a, now) && a.toMesh && meshUp
            ==> MeshBroadcast(a.message, MeshAlertChannel) in Outbox(alerts, now, channelUp, meshUp)
  {
    FlatMapIn(alerts, a => if Due(a, now) then [a] else [], a);
    if a in alerts && Due(a, now) {
      var i :| 0 <= i < |alerts| && alerts[i] == a;
      var f := a => Sends(a, now, channelUp, meshUp);
      FlatMapIn(alerts, f, Post(a.message));
      FlatMapIn(alerts, f, MeshBroadcast(a.message, MeshAlertChannel));
      assert a.toDiscord && channelUp ==> Post(a.message) in f(alerts[i]);
      assert a.toMesh && meshUp ==> MeshBroadcast(a.message, MeshAlertChannel) in f(alerts[i]);
    }
  }

  /** After a tick no stored alert is inactive: one-time alerts that remain
      are not yet due. */
  lemma {:induction false} KeptAreActive(alerts: seq<Alert>, now: int, b: Alert)
    requires b in Kept(alerts, now)
    ensures Active(b, now)
    ensures b.frequency == "once" ==> b.nextRun > now
  {
    FlatMapIn(alerts, a => Survivor(a, now), b);
  }

  /** A daily alert created at time t fires at t, is stored for t + 86400,
      stays quiet for every tick before then, and fires again at t + 86400. */
  lemma {:induction false} DailyRepeats(message: string, toDiscord: bool, toMesh: bool, t: int, later: int,
                                        channelUp: bool, meshUp: bool)
    requires t < later < t + 86400
    ensures var a := Alert(message, "daily", toDiscord, toMesh, t);
            var b := a.(nextRun := t + 86400);
            var sends := (if toDiscord && channelUp then [Post(message)] else [])
                         + (if toMesh && meshUp then [MeshBroadcast(message, MeshAlertChannel)] else []);
            && Fired([a], t) == [a] && Kept([a], t) == [b] && Outbox([a], t, channelUp, meshUp) == sends
            && Fired([b], later) == [] && Kept([b], later) == [b] && Outbox([b], later, channelUp, meshUp) == []
            && Fired([b], t + 86400) == [b] && Outbox([b], t + 86400, channelUp, meshUp) == sends
  {
    var a := Alert(message, "daily", toDiscord, toMesh, t);
    var b := a.(nextRun := t + 86400);
    TickRule(a, t, channelUp, meshUp);
    TickRule(b, later, channelUp, meshUp);
    TickRule(b, t + 86400, channelUp, meshUp);
    var due := (d: int) => (x: Alert) => if Due(x, d) then [x] else [];
    FlatMapSingle(a, due(t));
    FlatMapSingle(b, due(later));
    FlatMapSingle(b, due(t + 86400));
  }

  // ---------------------------------------------------------------------
  // /listalerts, /alert, /deletealert, /clearalerts

  /** The alerts /listalerts shows, numbered from 1 in this order. */
  function Listed(alerts: seq<Alert>, now: int): (r: seq<Alert>)
    ensures |r| <= |alerts|
  {
    FlatMapBounded(alerts, a => if Active(a, now) then [a] else [], 1);
    FlatMap(alerts, a => if Active(a, now) then [a] else [])
  }

  lemma {:induction false} ListedMembers(alerts: seq<Alert>, now: int, a: Alert)
    ensures a in Listed(alerts, now) <==> a in alerts && Active(a, now)
  {
    FlatMapIn(alerts, a => if Active(a, now) then [a] else [], a);
  }

  /** Right after a tick, /listalerts shows every stored alert. */
  lemma {:induction false} ListedAfterTick(alerts: seq<Alert>, now: int)
    ensures Listed(Kept(alerts, now), now) == Kept(alerts, now)
  {
    var kept := Kept(alerts, now);
    forall i | 0 <= i < |kept| ensures Active(kept[i], now) {
      KeptAreActive(alerts, now, kept[i]);
    }
    FlatMapIdentity(kept, a => if Active(a, now) then [a] else []);
  }

  datatype AlertError = NotAdmin | BadFrequency | BadIndex | NothingToClear

  const ValidFrequencies: seq<string> := ["once", "hourly", "daily", "weekly"]

  /** /alert: admins only; the frequency must lower-case to one of the four
      names and is stored lower-cased; the alert is due at once. */
  function AddAlert(alerts: seq<Alert>, isAdmin: bool, message: string, frequency: string,
                    toDiscord: bool, toMesh: bool, now: int): (r: Result<seq<Alert>, AlertError>)
    ensures !isAdmin ==> r == Failure(NotAdmin)
    ensures isAdmin ==> (r.Success? <==> Text.Lower(frequency) in ValidFrequencies)
    ensures r.Failure? ==> r.error in {NotAdmin, BadFrequency}
    ensures isAdmin && r.Failure? ==> r.error == BadFrequency
    ensures r.Success? ==> |r.value| == |alerts| + 1 && r.value[..|alerts|] == alerts
                           && r.value[|alerts|].message == message
                           && r.value[|alerts|].frequency in ValidFrequencies
                           && r.value[|alerts|].frequency == Text.Lower(frequency)
                           && r.value[|alerts|].toDiscord == toDiscord && r.value[|alerts|].toMesh == toMesh
                           && r.value[|alerts|].nextRun == now
  {
    if !isAdmin then Failure(NotAdmin)
    else
      var f := Text.Lower(frequency);
      if f !in ValidFrequencies then Failure(BadFrequency)
      else
        var r := alerts + [Alert(message, f, toDiscord, toMesh, now)];
        assert r[..|alerts|] == alerts;
        Success(r)
  }

  /** A freshly added alert fires on the tick in the same second: that
      tick sends what it sent before, followed by the new alert's post and
      broadcast. */
  lemma {:induction false} NewAlertFiresAtOnce(alerts: seq<Alert>, message: string, frequency: string,
                                               toDiscord: bool, toMesh: bool, now: int, channelUp: bool, meshUp: bool)
    requires AddAlert(alerts, true, message, frequency, toDiscord, toMesh, now).Success?
    ensures var r := AddAlert(alerts, true, message, frequency, toDiscord, toMesh, now).value;
            && r[|alerts|] in Fired(r, now)
            && Outbox(r, now, channelUp, meshUp)
               == Outbox(alerts, now, channelUp, meshUp)
                  + (if toDiscord && channelUp then [Post(message)] else [])
                  + (if toMesh && meshUp then [MeshBroadcast(message, MeshAlertChannel)] else [])
  {
    var r := AddAlert(alerts, true, message, frequency, toDiscord, toMesh, now).value;
    var a := r[|alerts|];
    EveryDueAlertFires(r, now, channelUp, meshUp, a);
    assert r == alerts + [a];
    TickKeepsOrder(alerts, [a], now, channelUp, meshUp);
    TickRule(a, now, channelUp, meshUp);
  }

  /** /deletealert as written: the index counts positions in the stored
      list, which can include due one-time alerts that /listalerts hides. */
  function DeleteAlertAsWritten(alerts: seq<Alert>, isAdmin: bool, index: int): (r: Result<(Alert, seq<Alert>), AlertError>)
    ensures !isAdmin ==> r == Failure(NotAdmin)
    ensures isAdmin ==> (r.Success? <==> 1 <= index <= |alerts|)
    ensures r.Failure? ==> r.error in {NotAdmin, BadIndex}
    ensures isAdmin && r.Failure? ==> r.error == BadIndex
    ensures r.Success? ==> r.value.0 == alerts[index - 1] && |r.value.1| == |alerts| - 1
                           && multiset(r.value.1) + multiset{r.value.0} == multiset(alerts)
    ensures r.Success? ==> r.value.1 == alerts[..index - 1] + alerts[index..]
  {
    if !isAdmin then Failure(NotAdmin)
    else if alerts == [] || index < 1 || index > |alerts| then Failure(BadIndex)
    else
      var rest := alerts[..index - 1] + alerts[index..];
      assert alerts == alerts[..index - 1] + [alerts[index - 1]] + alerts[index..];
      Success((alerts[index - 1], rest))
  }

  /** Right after a one-time alert is added and before the next tick,
      /listalerts shows a later hourly alert as number 1, yet /deletealert 1
      removes the hidden one-time alert instead. */
  lemma DeleteMissesListedAlert()
    ensures var hidden := Alert("maintenance", "once", true, false, 50);
            var shown := Alert("net check", "hourly", true, false, 100);
            && Listed([hidden, shown], 50) == [shown]
            && DeleteAlertAsWritten([hidden, shown], true, 1) == Success((hidden, [shown]))
  {
    var hidden := Alert("maintenance", "once", true, false, 50);
    var shown := Alert("net check", "hourly", true, false, 100);
    var f := (a: Alert) => if Active(a, 50) then [a] else [];
    assert [hidden, shown][..1] == [hidden];
    assert [hidden][..0] == [];
    assert FlatMap([hidden], f) == [];
  }

  /** The stored positions of the listed alerts, in listing order. */
  function ListedAt(alerts: seq<Alert>, now: int): (ps: seq<nat>)
    ensures |ps| == |Listed(alerts, now)|
    ensures forall k :: 0 <= k < |ps| ==> ps[k] < |alerts| && alerts[ps[k]] == Listed(alerts, now)[k]
    // in stored order, and exactly the positions of the active alerts
    ensures forall k, l :: 0 <= k < l < |ps| ==> ps[k] < ps[l]
    ensures forall j :: 0 <= j < |alerts| ==> (j in ps <==> Active(alerts[j], now))
    decreases |alerts|
  {
    if alerts == [] then []
    else
      var n := |alerts| - 1;
      var ps := ListedAt(alerts[..n], now);
      ActivePositionsStep(alerts, now, ps);
      ps + (if Active(alerts[n], now) then [n] else [])
  }

  /** One more alert: the active positions of the shorter list, plus the
      last position when that alert is active. */
  lemma ActivePositionsStep(alerts: seq<Alert>, now: int, ps: seq<nat>)
    requires alerts != []
    requires var init := alerts[..|alerts| - 1];
             && |ps| == |Listed(init, now)|
             && (forall k :: 0 <= k < |ps| ==> ps[k] < |init| && init[ps[k]] == Listed(init, now)[k])
             && (forall k, l :: 0 <= k < l < |ps| ==> ps[k] < ps[l])
             && (forall j :: 0 <= j < |init| ==> (j in ps <==> Active(init[j], now)))
    ensures var qs := ps + (if Active(alerts[|alerts| - 1], now) then [|alerts| - 1] else []);
            && |qs| == |Listed(alerts, now)|
            && (forall k :: 0 <= k < |qs| ==> qs[k] < |alerts| && alerts[qs[k]] == Listed(alerts, now)[k])
            && (forall k, l :: 0 <= k < l < |qs| ==> qs[k] < qs[l])
            && (forall j :: 0 <= j < |alerts| ==> (j in qs <==> Active(alerts[j], now)))
  {
    var n := |alerts| - 1;
    var init := alerts[..n];
    assert forall j :: 0 <= j < n ==> init[j] == alerts[j];
    assert Listed(alerts, now) == Listed(init, now) + (if Active(alerts[n], now) then [alerts[n]] else []);
    PositionsStep(ps, n, Active(alerts[n], now));
  }

  /** Appending the next position, or nothing, keeps a list of positions
      increasing and adds exactly that position. */
  lemma PositionsStep(ps: seq<nat>, n: nat, add: bool)
    requires forall k :: 0 <= k < |ps| ==> ps[k] < n
    requires forall k, l :: 0 <= k < l < |ps| ==> ps[k] < ps[l]
    ensures var qs := ps + (if add then [n] else []);
            && (forall k, l :: 0 <= k < l < |qs| ==> qs[k] < qs[l])
            && (forall j :: 0 <= j < n ==> (j in qs <==> j in ps))
            && (n in qs <==> add)
  {
  }

  /** /deletealert numbered as /listalerts numbers: the index-th listed
      alert is the one removed from the stored list. */
  function DeleteAlert(alerts: seq<Alert>, now: int, isAdmin: bool, index: int): (r: Result<(Alert, seq<Alert>), AlertError>)
    ensures !isAdmin ==> r == Failure(NotAdmin)
    ensures isAdmin ==> (r.Success? <==> 1 <= index <= |Listed(alerts, now)|)
    ensures r.Failure? ==> r.error in {NotAdmin, BadIndex}
    ensures isAdmin && r.Failure? ==> r.error == BadIndex
    ensures r.Success? ==> r.value.0 == Listed(alerts, now)[index - 1] && |r.value.1| == |alerts| - 1
                           && multiset(r.value.1) + multiset{r.value.0} == multiset(alerts)
    ensures r.Success? ==> var p := ListedAt(alerts, now)[index - 1];
                           alerts[p] == r.value.0 && r.value.1 == alerts[..p] + alerts[p + 1..]
  {
    var ps := ListedAt(alerts, now);
    if !isAdmin then Failure(NotAdmin)
    else if index < 1 || index > |ps| then Failure(BadIndex)
    else DeleteAlertAsWritten(alerts, true, ps[index - 1] + 1)
  }

  /** /clearalerts: admins only, and refused when there is nothing to clear. */
  function ClearAlerts(alerts: seq<Alert>, isAdmin: bool): (r: Result<seq<Alert>, AlertError>)
    ensures !isAdmin ==> r == Failure(NotAdmin)
    ensures isAdmin ==> (r.Success? <==> alerts != [])
    ensures r.Failure? ==> r.error in {NotAdmin, NothingToClear}
    ensures isAdmin && r.Failure? ==> r.error == NothingToClear
    ensures r.Success? ==> r.value == []
  {
    if !isAdmin then Failure(NotAdmin)
    else if alerts == [] then Failure(NothingToClear)
    else Success([])
  }
}
