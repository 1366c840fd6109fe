/** The server's table of market-data subscriptions: for every connected client, the
    tickers it asked for, keyed by leg id. A ticker is identified by the contract id
    (`conId`) of its contract. Cancelling a contract's stream with the broker is
    recorded in the log `cancelled`, one entry per cancellation, in the order they
    are issued. */
module Subscriptions {

  /** A connected websocket client. */
  type ClientId = int
  type ConId = int

  /** One entry of a client's `{leg_id: Ticker}` dictionary. */
  datatype Leg = Leg(legId: string, conId: ConId)

  /** The table: each client's legs, in the dictionary's insertion order. */
  type Table = map<ClientId, seq<Leg>>

  /** The contracts some client other than `ws` still watches. */
  ghost function WatchedByOthers(subs: Table, ws: ClientId): set<ConId> {
    set other, leg | other in subs && other != ws && leg in subs[other] :: leg.conId
  }

  /** The same, counting only the clients in `keys`. */
  ghost function WatchedAmong(subs: Table, ws: ClientId, keys: set<ClientId>): set<ConId> {
    set other, leg | other in keys && other in subs && other != ws && leg in subs[other] :: leg.conId
  }

  /** The contract ids of the legs not in `active`, one per leg, in order. */
  function ToCancel(legs: seq<Leg>, active: set<ConId>): (r: seq<ConId>)
    ensures |r| <= |legs|
  {
    if legs == [] then []
    else
      var last := legs[|legs| - 1];
      ToCancel(legs[..|legs| - 1], active) + (if last.conId in active then [] else [last.conId])
  }

  /** How many of the legs are on contract c. */
  function CountCon(legs: seq<Leg>, c: ConId): (n: nat)
    ensures n <= |legs|
  {
    if legs == [] then 0
    else CountCon(legs[..|legs| - 1], c) + (if legs[|legs| - 1].conId == c then 1 else 0)
  }

  /** Whether client ws has anything to drop. */
  predicate HasSubscriptions(subs: Table, ws: ClientId) {
    ws in subs && subs[ws] != []
  }

  /** The table after `unsubscribe_client_safely(ws)`. */
  function Remaining(subs: Table, ws: ClientId): Table {
    if HasSubscriptions(subs, ws) then subs[ws := []] else subs
  }

  /** The cancellations `unsubscribe_client_safely(ws)` issues, in order. */
  ghost function Cancellations(subs: Table, ws: ClientId): seq<ConId> {
    if HasSubscriptions(subs, ws) then ToCancel(subs[ws], WatchedByOthers(subs, ws)) else []
  }

  class SubscriptionTable {
    var subscriptions: Table
    ghost var cancelled: seq<ConId>

    constructor ()
      ensures subscriptions == map[] && cancelled == []
    {
      subscriptions := map[];
      cancelled := [];
    }

    /** The `active_contracts` loop: every contract watched by a client other than ws. */
    method CollectActive(ws: ClientId) returns (active: set<ConId>)
      ensures active == WatchedByOthers(subscriptions, ws)
    {
      active := {};
      var rest := subscriptions.Keys;
      ghost var done: set<ClientId> := {};
      while rest != {}
        invariant rest + done == subscriptions.Keys && rest !! done
        invariant active == WatchedAmong(subscriptions, ws, done)
        decreases rest
      {
        NonEmptyHasMember(rest);
        var other :| other in rest;
        if other != ws {
          var legs := subscriptions[other];
          var j := 0;
          while j < |legs|
            invariant 0 <= j <= |legs|
            invariant active == WatchedAmong(subscriptions, ws, done) + (set k | 0 <= k < j :: legs[k].conId)
          {
            active := active + {legs[j].conId};
            j := j + 1;
          }
          AddClient(subscriptions, ws, done, other);
        } else {
          AddSelf(subscriptions, ws, done);
        }
        rest := rest - {other};
        done := done + {other};
      }
      assert done == subscriptions.Keys;
      WatchedAmongAll(subscriptions, ws);
    }

    /** `unsubscribe_client_safely(ws)`: cancel the streams only ws was watching and
        empty its entry; a client with no entry, or an empty one, changes nothing. */
    method UnsubscribeClientSafely(ws: ClientId)
      modifies this
      ensures subscriptions == Remaining(old(subscriptions), ws)
      ensures cancelled == old(cancelled) + Cancellations(old(subscriptions), ws)
    {
      if ws !in subscriptions || subscriptions[ws] == [] {
        return;
      }
      var legs := subscriptions[ws];
      var active := CollectActive(ws);
      var i := 0;
      while i < |legs|
        invariant 0 <= i <= |legs|
        invariant subscriptions == old(subscriptions)
        invariant cancelled == old(cancelled) + ToCancel(legs[..i], active)
      {
        if legs[i].conId !in active {
          cancelled := cancelled + [legs[i].conId];
        }
        assert legs[..i + 1][..i] == legs[..i];
        i := i + 1;
      }
      assert legs[..|legs|] == legs;
      subscriptions := subscriptions[ws := []];
    }
  }

  lemma NonEmptyHasMember(s: set<ClientId>)
    requires s != {}
    ensures exists x :: x in s
  {
    if forall x :: x !in s {
      assert false;
    }
  }

  lemma AddClient(subs: Table, ws: ClientId, done: set<ClientId>, other: ClientId)
    requires other in subs && other != ws
    ensures WatchedAmong(subs, ws, done + {other})
         == WatchedAmong(subs, ws, done) + (set k | 0 <= k < |subs[other]| :: subs[other][k].conId)
  {
    var legs := subs[other];
    forall c | c in (set k | 0 <= k < |legs| :: legs[k].conId)
      ensures c in WatchedAmong(subs, ws, done + {other})
    {
      var k :| 0 <= k < |legs| && legs[k].conId == c;
      assert legs[k] in subs[other];
    }
  }

  lemma AddSelf(subs: Table, ws: ClientId, done: set<ClientId>)
    ensures WatchedAmong(subs, ws, done + {ws}) == WatchedAmong(subs, ws, done)
  {
  }

  lemma WatchedAmongAll(subs: Table, ws: ClientId)
    ensures WatchedAmong(subs, ws, subs.Keys) == WatchedByOthers(subs, ws)
  {
  }

  // ---------------------------------------------------------------------------
  // Properties of one unsubscription

  /** A client without subscriptions leaves the table as it was, inserts no key, and
      cancels nothing. */
  lemma NothingToDrop(subs: Table, ws: ClientId)
    requires !HasSubscriptions(subs, ws)
    ensures Remaining(subs, ws) == subs && Remaining(subs, ws).Keys == subs.Keys
    ensures Cancellations(subs, ws) == []
  {
  }

  /** Every other client's entry is untouched, no key is added or removed, and the
      client's own entry, if it had one, is left empty. */
  lemma OthersUnchanged(subs: Table, ws: ClientId)
    ensures Remaining(subs, ws).Keys == subs.Keys
    ensures forall other :: other in subs && other != ws ==> Remaining(subs, ws)[other] == subs[other]
    ensures ws in subs ==> Remaining(subs, ws)[ws] == []
  {
  }

  lemma {:induction false} ToCancelMembers(legs: seq<Leg>, active: set<ConId>, c: ConId)
    ensures c in ToCancel(legs, active) <==> c !in active && exists leg :: leg in legs && leg.conId == c
  {
    if legs != [] {
      var init := legs[..|legs| - 1];
      ToCancelMembers(init, active, c);
      assert legs == init + [legs[|legs| - 1]];
      if c !in active && exists leg :: leg in legs && leg.conId == c {
        var leg :| leg in legs && leg.conId == c;
        if leg != legs[|legs| - 1] {
          assert leg in init;
        }
      }
    }
  }

  /** A contract is cancelled exactly when the client watched it and no other client
      does. */
  lemma CancelledIffUnwatched(subs: Table, ws: ClientId, c: ConId)
    ensures c in Cancellations(subs, ws)
        <==> ws in subs
             && (exists leg :: leg in subs[ws] && leg.conId == c)
             && (forall other, leg :: other in subs && other != ws && leg in subs[other] ==> leg.conId != c)
  {
    if ws in subs {
      ToCancelMembers(subs[ws], WatchedByOthers(subs, ws), c);
    }
  }

  lemma {:induction false} ToCancelCount(legs: seq<Leg>, active: set<ConId>, c: ConId)
    ensures multiset(ToCancel(legs, active))[c] == if c in active then 0 else CountCon(legs, c)
  {
    if legs != [] {
      ToCancelCount(legs[..|legs| - 1], active, c);
    }
  }

  /** A contract nobody else watches is cancelled once for each of the client's legs on
      it, so a contract held under two leg ids is cancelled twice; a contract still
      watched elsewhere is never cancelled. */
  lemma CancelCount(subs: Table, ws: ClientId, c: ConId)
    requires ws in subs
    ensures multiset(Cancellations(subs, ws))[c]
         == if c in WatchedByOthers(subs, ws) then 0 else CountCon(subs[ws], c)
  {
    ToCancelCount(subs[ws], WatchedByOthers(subs, ws), c);
  }

  /** Unsubscribing the same client again changes nothing and cancels nothing. */
  lemma UnsubscribeTwice(subs: Table, ws: ClientId)
    ensures Remaining(Remaining(subs, ws), ws) == Remaining(subs, ws)
    ensures Cancellations(Remaining(subs, ws), ws) == []
  {
  }
}
