/**
 Announcing opportunities when they appear and when they have been gone long
 enough (internal/opportunities/notifier.go).
 */
module Notifier {
  import Text

  type Key = string

  datatype Opportunity = Opportunity(symbol: string, spotExchange: string, futuresExchange: string, spreadPercent: real)
  {
    function Id(): Key {
      symbol + ":" + spotExchange + ":" + futuresExchange
    }
  }

  /** Exchanges without a colon in their names: opportunities share a key exactly for one symbol and the same two exchanges. */
  lemma KeysMeetIff(a: Opportunity, b: Opportunity)
    requires ':' !in a.spotExchange && ':' !in a.futuresExchange && ':' !in b.spotExchange && ':' !in b.futuresExchange
    ensures a.Id() == b.Id() <==>
            a.symbol == b.symbol && a.spotExchange == b.spotExchange && a.futuresExchange == b.futuresExchange
  {
    Text.LastColonSplits(a.symbol + ":" + a.spotExchange, a.futuresExchange, b.symbol + ":" + b.spotExchange, b.futuresExchange);
    Text.LastColonSplits(a.symbol, a.spotExchange, b.symbol, b.spotExchange);
  }

  datatype Tracked = Tracked(opportunity: Opportunity, firstSeen: int, lastSeen: int, notified: bool)

  /** The messages sent. */
  datatype Event = Appear(key: Key, at: int) | Disappear(key: Key, at: int, lastSeen: int)

  // ------------------------------------------------------------ histories of messages

  /** Whether the last message about `key` was an appearance. */
  function IsUp(events: seq<Event>, key: Key): bool {
    if events == [] then false
    else
      var last := events[|events| - 1];
      if last.key == key then last.Appear? else IsUp(events[..|events| - 1], key)
  }

  /** Every appearance is of a key that is down, every disappearance of one that is up. */
  ghost predicate Alternating(events: seq<Event>) {
    events == [] ||
    (var last := events[|events| - 1];
     var before := events[..|events| - 1];
     Alternating(before) && (last.Appear? <==> !IsUp(before, last.key)))
  }

  lemma OneMoreEvent(events: seq<Event>, e: Event)
    ensures forall k :: IsUp(events + [e], k) == if e.key == k then e.Appear? else IsUp(events, k)
    ensures Alternating(events + [e]) <==> Alternating(events) && (e.Appear? <==> !IsUp(events, e.key))
  {
    assert (events + [e])[..|events + [e]| - 1] == events;
  }

  lemma {:induction false} PrefixAlternates(events: seq<Event>, n: nat)
    requires Alternating(events) && n <= |events|
    ensures Alternating(events[..n])
    decreases |events|
  {
    if n < |events| {
      PrefixAlternates(events[..|events| - 1], n);
      assert events[..|events| - 1][..n] == events[..n];
    } else {
      assert events[..n] == events;
    }
  }

  /** A message's kind decides whether its key is up until the next message about it. */
  lemma {:induction false} UpUntilNext(events: seq<Event>, i: nat, n: nat)
    requires i < n <= |events|
    requires forall m :: i < m < n ==> events[m].key != events[i].key
    ensures IsUp(events[..n], events[i].key) == events[i].Appear?
  {
    var p := events[..n];
    assert p[..|p| - 1] == events[..n - 1];
    if n > i + 1 {
      UpUntilNext(events, i, n - 1);
    }
  }

  lemma {:induction false} DownBeforeFirst(events: seq<Event>, key: Key, n: nat)
    requires n <= |events| && forall m :: 0 <= m < n ==> events[m].key != key
    ensures !IsUp(events[..n], key)
  {
    if n > 0 {
      assert events[..n][..n - 1] == events[..n - 1];
      DownBeforeFirst(events, key, n - 1);
    }
  }

  /** Message `j` is the next one about the key of message `i`. */
  ghost predicate NextOfKey(events: seq<Event>, i: nat, j: nat)
    requires i < j < |events|
  {
    events[i].key == events[j].key && forall m :: i < m < j ==> events[m].key != events[j].key
  }

  /** Per key the messages strictly alternate, starting with an appearance. */
  lemma MessagesAlternate(events: seq<Event>, j: nat)
    requires Alternating(events) && j < |events|
    ensures (forall m :: 0 <= m < j ==> events[m].key != events[j].key) ==> events[j].Appear?
    ensures forall i :: 0 <= i < j && NextOfKey(events, i, j) ==> events[i].Appear? != events[j].Appear?
  {
    PrefixAlternates(events, j + 1);
    assert events[..j + 1][..j] == events[..j];
    if forall m :: 0 <= m < j ==> events[m].key != events[j].key {
      DownBeforeFirst(events, events[j].key, j);
    }
    forall i | 0 <= i < j && NextOfKey(events, i, j)
      ensures events[i].Appear? != events[j].Appear?
    {
      UpUntilNext(events, i, j);
    }
  }

  // ------------------------------------------------------------ one call

  function Keys(opps: seq<Opportunity>): set<Key> {
    set o | o in opps :: o.Id()
  }

  /** The last listed opportunity with a key wins. */
  function LatestOf(opps: seq<Opportunity>, key: Key): Opportunity
    requires key in Keys(opps)
  {
    var last := opps[|opps| - 1];
    if last.Id() == key then last
    else
      assert key in Keys(opps[..|opps| - 1]) by {
        var o :| o in opps && o.Id() == key;
        assert opps == opps[..|opps| - 1] + [last];
      }
      LatestOf(opps[..|opps| - 1], key)
  }

  /** What is known about `key` after it was listed in `opps` at `now`. */
  function Refreshed(active: map<Key, Tracked>, opps: seq<Opportunity>, key: Key, now: int): Tracked
    requires key in Keys(opps)
  {
    Tracked(LatestOf(opps, key), if key in active then active[key].firstSeen else now, now, true)
  }

  /** The tracked keys once the listed ones have been entered. */
  ghost predicate Entered(before: map<Key, Tracked>, active: map<Key, Tracked>, opps: seq<Opportunity>, now: int) {
    && active.Keys == before.Keys + Keys(opps)
    && (forall k :: k in Keys(opps) ==> active[k] == Refreshed(before, opps, k, now))
    && (forall k :: k in before && k !in Keys(opps) ==> active[k] == before[k])
  }

  /** The key is gone from the list and was last seen at least the timeout ago. */
  predicate TimedOut(before: map<Key, Tracked>, opps: seq<Opportunity>, k: Key, now: int, timeout: int) {
    k in before && k !in Keys(opps) && now - before[k].lastSeen >= timeout
  }

  /** The message that a tracked key has been gone for the timeout. */
  ghost predicate Gone(before: map<Key, Tracked>, listed: set<Key>, now: int, timeout: int, e: Event) {
    && e.Disappear? && e.at == now
    && e.key in before && e.key !in listed
    && e.lastSeen == before[e.key].lastSeen && now - e.lastSeen >= timeout
  }

  /** `added` holds exactly the appearances of the listed keys that were not tracked. */
  ghost predicate Announces(before: map<Key, Tracked>, added: seq<Event>, opps: seq<Opportunity>, now: int) {
    forall e :: e in added <==> e.Appear? && e.at == now && e.key in Keys(opps) && e.key !in before
  }

  /** `added` holds exactly the disappearances of the keys gone for the timeout. */
  ghost predicate Closes(before: map<Key, Tracked>, added: seq<Event>, listed: set<Key>, now: int, timeout: int) {
    forall e :: e in added <==> Gone(before, listed, now, timeout, e)
  }

  /** The tracked keys once those gone for the timeout have been dropped. */
  ghost predicate Expired(before: map<Key, Tracked>, active: map<Key, Tracked>, listed: set<Key>, now: int, timeout: int) {
    && (forall k :: k in active <==> k in before && (k in listed || now - before[k].lastSeen < timeout))
    && (forall k :: k in active ==> active[k] == before[k])
  }

  /**
   What one round does. New keys are announced once; a key is announced gone exactly when it is
   not listed and was last seen at least the timeout ago; nothing else is announced, and the
   tracked keys are the listed ones and those not yet timed out.
   */
  ghost predicate Round(before: map<Key, Tracked>, active: map<Key, Tracked>, opps: seq<Opportunity>, now: int, timeout: int,
                        added: seq<Event>) {
    && (forall k :: Appear(k, now) in added <==> k in Keys(opps) && k !in before)
    && (forall k, seen :: Disappear(k, now, seen) in added <==> TimedOut(before, opps, k, now, timeout) && seen == before[k].lastSeen)
    && (forall e :: e in added ==> e.at == now)
    && (forall k :: k in active <==> k in Keys(opps) || (k in before && !TimedOut(before, opps, k, now, timeout)))
    && (forall k :: k in Keys(opps) ==> active[k] == Refreshed(before, opps, k, now))
    && (forall k :: k in active && k !in Keys(opps) ==> active[k] == before[k])
  }

  lemma RoundHolds(before: map<Key, Tracked>, entered: map<Key, Tracked>, active: map<Key, Tracked>, opps: seq<Opportunity>,
                   now: int, timeout: int, appeared: seq<Event>, gone: seq<Event>)
    requires Entered(before, entered, opps, now) && Expired(entered, active, Keys(opps), now, timeout)
    requires Announces(before, appeared, opps, now) && Closes(entered, gone, Keys(opps), now, timeout)
    ensures Round(before, active, opps, now, timeout, appeared + gone)
  {
    hide Keys, Refreshed;
    forall k, seen ensures Disappear(k, now, seen) in appeared + gone <==>
        (TimedOut(before, opps, k, now, timeout) && seen == before[k].lastSeen) {
      assert Disappear(k, now, seen) in appeared + gone <==> Gone(entered, Keys(opps), now, timeout, Disappear(k, now, seen));
    }
    assert forall k :: Appear(k, now) in appeared + gone <==> Appear(k, now) in appeared;
  }

  lemma Associates(a: seq<Event>, b: seq<Event>, c: seq<Event>)
    ensures a + (b + c) == (a + b) + c
  {
  }

  // ------------------------------------------------------------ one message, one key

  /** The tracked keys are exactly those whose last message was an appearance; every one has been announced. */
  ghost predicate Tracks(events: seq<Event>, active: map<Key, Tracked>) {
    && Alternating(events)
    && (forall k :: k in active <==> IsUp(events, k))
    && (forall k :: k in active ==> active[k].notified)
  }

  lemma TracksNew(events: seq<Event>, active: map<Key, Tracked>, opp: Opportunity, now: int)
    requires Tracks(events, active) && opp.Id() !in active
    ensures Tracks(events + [Appear(opp.Id(), now)], active[opp.Id() := Tracked(opp, now, now, true)])
  {
    hide IsUp, Alternating;
    OneMoreEvent(events, Appear(opp.Id(), now));
  }

  lemma TracksAgain(events: seq<Event>, active: map<Key, Tracked>, opp: Opportunity, now: int)
    requires Tracks(events, active) && opp.Id() in active
    ensures Tracks(events, active[opp.Id() := active[opp.Id()].(lastSeen := now, opportunity := opp)])
  {
    hide IsUp, Alternating;
  }

  lemma TracksNoMore(events: seq<Event>, active: map<Key, Tracked>, k: Key, now: int, seen: int)
    requires Tracks(events, active) && k in active
    ensures Tracks(events + [Disappear(k, now, seen)], active - {k})
  {
    hide IsUp, Alternating;
    OneMoreEvent(events, Disappear(k, now, seen));
  }

  lemma KeysOfNext(opps: seq<Opportunity>, i: nat)
    requires i < |opps|
    ensures Keys(opps[..i + 1]) == Keys(opps[..i]) + {opps[i].Id()}
  {
    assert opps[..i + 1] == opps[..i] + [opps[i]];
  }

  lemma LatestOfNext(opps: seq<Opportunity>, i: nat, key: Key)
    requires i < |opps| && key in Keys(opps[..i + 1])
    ensures key == opps[i].Id() ==> LatestOf(opps[..i + 1], key) == opps[i]
    ensures key != opps[i].Id() ==> key in Keys(opps[..i]) && LatestOf(opps[..i + 1], key) == LatestOf(opps[..i], key)
  {
    hide Keys;
    KeysOfNext(opps, i);
    var upTo := opps[..i + 1];
    assert upTo[..|upTo| - 1] == opps[..i];
  }

  lemma EnterNone(before: map<Key, Tracked>, opps: seq<Opportunity>, now: int)
    ensures Entered(before, before, opps[..0], now) && Announces(before, [], opps[..0], now)
  {
  }

  lemma EnterOne(before: map<Key, Tracked>, previous: map<Key, Tracked>, active: map<Key, Tracked>,
                 opps: seq<Opportunity>, i: nat, now: int)
    requires i < |opps| && Entered(before, previous, opps[..i], now)
    requires forall k :: k in before ==> before[k].notified
    requires var k := opps[i].Id();
      active == previous[k := if k in previous then previous[k].(lastSeen := now, opportunity := opps[i]) else Tracked(opps[i], now, now, true)]
    ensures Entered(before, active, opps[..i + 1], now)
  {
    hide Keys, LatestOf;
    KeysOfNext(opps, i);
    forall key | key in Keys(opps[..i + 1]) ensures active[key] == Refreshed(before, opps[..i + 1], key, now) {
      LatestOfNext(opps, i, key);
    }
  }

  lemma AnnounceOne(before: map<Key, Tracked>, previous: map<Key, Tracked>, added: seq<Event>, opps: seq<Opportunity>,
                    i: nat, now: int)
    requires i < |opps| && Entered(before, previous, opps[..i], now) && Announces(before, added, opps[..i], now)
    ensures var k := opps[i].Id();
      Announces(before, if k in previous then added else added + [Appear(k, now)], opps[..i + 1], now)
  {
    hide Keys, Refreshed;
    KeysOfNext(opps, i);
  }

  /** Part of the tracked keys, `rest`, has not been looked at yet. */
  ghost predicate Closing(before: map<Key, Tracked>, active: map<Key, Tracked>, rest: set<Key>, listed: set<Key>,
                          now: int, timeout: int, added: seq<Event>) {
    && rest <= active.Keys <= before.Keys
    && (forall k :: k in before && k !in rest ==> (k in active <==> k in listed || now - before[k].lastSeen < timeout))
    && (forall k :: k in active ==> active[k] == before[k])
    && (forall e :: e in added <==> Gone(before, listed, now, timeout, e) && e.key !in rest)
  }

  lemma CloseOne(before: map<Key, Tracked>, active: map<Key, Tracked>, rest: set<Key>, listed: set<Key>,
                 now: int, timeout: int, added: seq<Event>, k: Key)
    requires Closing(before, active, rest, listed, now, timeout, added) && k in rest
    ensures active[k] == before[k]
    ensures if k !in listed && now - active[k].lastSeen >= timeout
            then Closing(before, active - {k}, rest - {k}, listed, now, timeout, added + [Disappear(k, now, active[k].lastSeen)])
            else Closing(before, active, rest - {k}, listed, now, timeout, added)
  {
  }

  class OpportunityNotifier {
    const hasClient: bool
    const disappearTimeout: int

    var activeOpps: map<Key, Tracked>

    ghost var events: seq<Event>

    constructor (hasClient: bool, disappearTimeout: int)
      ensures this.hasClient == hasClient && this.disappearTimeout == disappearTimeout
      ensures activeOpps == map[] && events == [] && Valid()
    {
      this.hasClient, this.disappearTimeout := hasClient, disappearTimeout;
      activeOpps, events := map[], [];
    }

    ghost predicate Valid()
      reads this
    {
      Tracks(events, activeOpps)
    }

    /** The first loop: listed keys are entered, and the new ones announced. */
    method Enter(opps: seq<Opportunity>, now: int) returns (ghost added: seq<Event>)
      requires Valid()
      modifies this
      ensures Valid() && events == old(events) + added
      ensures Entered(old(activeOpps), activeOpps, opps, now)
      ensures Announces(old(activeOpps), added, opps, now)
    {
      added := [];
      ghost var before := activeOpps;
      assert forall k :: k in before ==> before[k].notified;
      hide Tracks, Entered, Announces, Keys;
      EnterNone(before, opps, now);
      for i := 0 to |opps|
        invariant Valid() && events == old(events) + added
        invariant Entered(before, activeOpps, opps[..i], now) && Announces(before, added, opps[..i], now)
      {
        var opp := opps[i];
        var k := opp.Id();
        ghost var previous := activeOpps;
        AnnounceOne(before, previous, added, opps, i, now);
        if k !in activeOpps {
          TracksNew(events, activeOpps, opp, now);
          Associates(old(events), added, [Appear(k, now)]);
          activeOpps := activeOpps[k := Tracked(opp, now, now, true)];
          events := events + [Appear(k, now)];
          added := added + [Appear(k, now)];
        } else {
          TracksAgain(events, activeOpps, opp, now);
          activeOpps := activeOpps[k := activeOpps[k].(lastSeen := now, opportunity := opp)];
        }
        EnterOne(before, previous, activeOpps, opps, i, now);
      }
      assert opps[..|opps|] == opps;
    }

    /** The second loop, over the map in any order: keys gone for the timeout are announced and dropped. */
    method Expire(listed: set<Key>, now: int) returns (ghost added: seq<Event>)
      requires Valid()
      modifies this
      ensures Valid() && events == old(events) + added
      ensures Expired(old(activeOpps), activeOpps, listed, now, disappearTimeout)
      ensures Closes(old(activeOpps), added, listed, now, disappearTimeout)
    {
      added := [];
      var rest := activeOpps.Keys;
      ghost var before := activeOpps;
      hide Tracks;
      while rest != {}
        invariant Valid() && events == old(events) + added
        invariant Closing(before, activeOpps, rest, listed, now, disappearTimeout, added)
        decreases rest
      {
        var k :| k in rest;
        hide Closing, Gone;
        CloseOne(before, activeOpps, rest, listed, now, disappearTimeout, added, k);
        rest := rest - {k};
        if k !in listed {
          var seen := activeOpps[k].lastSeen;
          if now - seen >= disappearTimeout {
            TracksNoMore(events, activeOpps, k, now, seen);
            Associates(old(events), added, [Disappear(k, now, seen)]);
            events := events + [Disappear(k, now, seen)];
            added := added + [Disappear(k, now, seen)];
            activeOpps := activeOpps - {k};
          }
        }
      }
    }

    /**
     One round. New keys are announced once; a key is announced gone exactly when it is not
     listed and was last seen at least the timeout ago; everything else is silent.
     */
    method Notify(opps: seq<Opportunity>, now: int) returns (ghost added: seq<Event>)
      requires Valid()
      modifies this
      ensures Valid() && events == old(events) + added
      ensures !hasClient ==> added == [] && activeOpps == old(activeOpps)
      ensures hasClient ==> Round(old(activeOpps), activeOpps, opps, now, disappearTimeout, added)
    {
      added := [];
      if !hasClient {
        return;
      }
      hide Round, Entered, Expired, Announces, Closes, Alternating, Keys;
      var listed := Keys(opps);
      ghost var before := activeOpps;
      ghost var appeared := Enter(opps, now);
      ghost var entered := activeOpps;
      ghost var gone := Expire(listed, now);
      added := appeared + gone;
      Associates(old(events), appeared, gone);
      RoundHolds(before, entered, activeOpps, opps, now, disappearTimeout, appeared, gone);
    }
  }
}
