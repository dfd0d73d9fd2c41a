/**
 When a transfer survives, going by the bus history alone: eight live sessions are
 room for every transfer that fewer than eight other keys have announced over.
 */
module TransportEviction {
  import opened CanTypes
  import opened TransportProtocol
  import opened TransportRuns

  /** The other keys that made a valid announce after the last announce of k. */
  function Rivals(events: seq<Event>, k: Key): set<Key> {
    if events == [] then {}
    else
      var e, before := events[|events| - 1], Rivals(events[..|events| - 1], k);
      if e.Announce? && e.key == k then {}
      else if e.Announce? && e.offer.Valid() then before + {e.key}
      else before
  }

  /** A valid announce that came after the last one of k makes a rival. */
  lemma {:induction false} LaterAnnounceIsRival(events: seq<Event>, k: Key, j: Key)
    requires j != k && AnnouncedAt(events, k) < AnnouncedAt(events, j)
    requires Pending(events, j).value.offer.Valid()
    ensures j in Rivals(events, k)
  {
    hide Pending;
    var e := events[|events| - 1];
    if !(e.Announce? && e.key == j) {
      LaterAnnounceIsRival(events[..|events| - 1], k, j);
    }
  }

  lemma RunLength(states: seq<State>, events: seq<Event>, outs: seq<Option<Message>>)
    requires IsRun(states, events, outs)
    ensures |states| == |events| + 1 && |outs| == |events|
  {
  }

  /** Whoever is evicted was the oldest of eight, so seven announced after it, and the announcer makes eight. */
  lemma EvictedHasRivals(states: seq<State>, events: seq<Event>, outs: seq<Option<Message>>, n: nat, k: Key)
    requires IsRun(states, events, outs) && n < |events|
    requires Opens(events[..n]) <= ORDER_WRAP
    requires Evicts(states[n], events[n], states[n + 1], k)
    ensures |Rivals(events[..n + 1], k)| >= MAX_SESSIONS
  {
    hide IsRun, Opens, Rivals, Pending, AnnouncedAt, Evicts, EvictedSince, Tracks;
    RunLength(states, events, outs);
    var s, e, before := states[n], events[n], events[..n];
    EvictionIsByAnnounce(states, events, outs, n, k);
    var others := s.live.Keys - {e.key, k};
    forall j | j in others
      ensures j in Rivals(before, k)
    {
      EvictsTheEarliestAnnounced(states, events, outs, n, k, j);
      LiveIsValid(states, events, outs, n, j);
      LaterAnnounceIsRival(before, k, j);
    }
    RivalStep(before, e, k);
    assert before + [e] == events[..n + 1];
    SubsetSize(others + {e.key}, Rivals(events[..n + 1], k));
  }

  lemma EvictionIsByAnnounce(states: seq<State>, events: seq<Event>, outs: seq<Option<Message>>, n: nat, k: Key)
    requires IsRun(states, events, outs) && n < |events|
    requires Evicts(states[n], events[n], states[n + 1], k)
    ensures var s, e := states[n], events[n];
            && e.Announce? && e.offer.Valid() && e.key != k && k in s.live
            && |s.live.Keys - {e.key, k}| >= MAX_SESSIONS - 1
  {
    hide Next, Oldest;
    var s, e := states[n], events[n];
    assert Next(s, e, states[n + 1], outs[n]);
    OnlyOwnKeyChanges(s, e, states[n + 1], outs[n], k);
    var rest := s.live - {e.key};
    assert |rest.Keys| == |rest|;
    assert rest.Keys == (s.live.Keys - {e.key, k}) + {k};
  }

  lemma LiveIsValid(states: seq<State>, events: seq<Event>, outs: seq<Option<Message>>, n: nat, j: Key)
    requires IsRun(states, events, outs) && n <= |events| && j in states[n].live
    ensures Pending(events[..n], j).Some? && Pending(events[..n], j).value.offer.Valid()
  {
    hide IsRun, Pending, EvictedSince, Tracks;
    TableMatchesHistory(states, events, outs, n, j);
  }

  lemma RivalStep(events: seq<Event>, e: Event, k: Key)
    ensures Rivals(events + [e], k)
            == if e.Announce? && e.key == k then {}
               else if e.Announce? && e.offer.Valid() then Rivals(events, k) + {e.key}
               else Rivals(events, k)
  {
    assert (events + [e])[..|events|] == events;
  }

  lemma OpensStep(events: seq<Event>, e: Event)
    ensures Opens(events) <= Opens(events + [e])
  {
    assert (events + [e])[..|events|] == events;
  }

  /**
   While at most 2^32 transfers were opened, a transfer is never evicted unless eight
   other keys made a valid announce after it did.
   */
  lemma {:induction false} SurvivesFewRivals(states: seq<State>, events: seq<Event>, outs: seq<Option<Message>>, n: nat,
                                             k: Key)
    requires IsRun(states, events, outs) && n <= |events|
    requires Opens(events[..n]) <= ORDER_WRAP
    ensures |Rivals(events[..n], k)| < MAX_SESSIONS ==> !EvictedSince(states, events, n, k)
    decreases n
  {
    hide IsRun, Opens, Rivals, Evicts;
    if n > 0 && |Rivals(events[..n], k)| < MAX_SESSIONS {
      var e, before := events[n - 1], events[..n - 1];
      assert before + [e] == events[..n];
      OpensStep(before, e);
      if !(e.Announce? && e.key == k) {
        RivalStep(before, e, k);
        SubsetSize(Rivals(before, k), Rivals(events[..n], k));
        SurvivesFewRivals(states, events, outs, n - 1, k);
        RunLength(states, events, outs);
        if Evicts(states[n - 1], e, states[n], k) {
          EvictedHasRivals(states, events, outs, n - 1, k);
        }
      }
    }
  }

  /**
   Delivery by history alone. Whatever hostile frames are mixed in, a step returns
   exactly the message the bus history makes due, as long as fewer than eight other
   keys made a valid announce over that transfer and at most 2^32 were opened in all.
   */
  lemma DeliveredByHistory(states: seq<State>, events: seq<Event>, outs: seq<Option<Message>>, n: nat)
    requires IsRun(states, events, outs) && n < |events|
    requires Opens(events[..n]) <= ORDER_WRAP
    requires events[n].Data? ==> |Rivals(events[..n], events[n].key)| < MAX_SESSIONS
    ensures outs[n] == Due(events[..n + 1])
  {
    hide IsRun, Opens, Rivals, Due, EvictedSince;
    RunLength(states, events, outs);
    DeliveredExactly(states, events, outs, n);
    if events[n].Data? {
      SurvivesFewRivals(states, events, outs, n, events[n].key);
    }
  }

  // ----- eight rivals are enough

  /** Announces only, each valid and of its own key. */
  ghost predicate Crowd(events: seq<Event>) {
    && (forall i :: 0 <= i < |events| ==> events[i].Announce? && events[i].offer.Valid())
    && (forall i, j :: 0 <= i < j < |events| ==> events[i].key != events[j].key)
  }

  /** The first n announces are live, in the order they came. */
  ghost predicate FirstLive(s: State, events: seq<Event>, n: nat)
    requires n <= |events| && Crowd(events)
  {
    && s.opens == n && |s.live| == n
    && (forall i :: 0 <= i < n ==> events[i].key in s.live && s.live[events[i].key].openedAt == i)
    && (forall k :: k in s.live ==> s.live[k].openedAt < n && events[s.live[k].openedAt].key == k)
  }

  lemma FreshAnnounce(s: State, e: Event, s': State, out: Option<Message>)
    requires e.Announce? && e.offer.Valid() && e.key !in s.live && |s.live| < MAX_SESSIONS
    requires Next(s, e, s', out)
    ensures s' == State(s.live[e.key := Opened(e.key, e.offer, s.opens)], s.opens + 1)
    ensures |s'.live| == |s.live| + 1
  {
    assert s.live - {e.key} == s.live;
    AddSize(s.live, e.key, Opened(e.key, e.offer, s.opens));
  }

  lemma CrowdStep(s: State, events: seq<Event>, n: nat, s': State, out: Option<Message>)
    requires Crowd(events) && n < |events| && n < MAX_SESSIONS
    requires FirstLive(s, events, n) && Next(s, events[n], s', out)
    ensures FirstLive(s', events, n + 1)
  {
    hide Next, Opened, Crowd;
    CrowdAt(events, n);
    var k, started := events[n].key, Opened(events[n].key, events[n].offer, s.opens);
    assert k !in s.live;
    FreshAnnounce(s, events[n], s', out);
    assert started.openedAt == n by { OpenedInOrder(k, events[n].offer, n); }
    assert s'.live == s.live[k := started];
  }

  lemma CrowdAt(events: seq<Event>, n: nat)
    requires Crowd(events) && n < |events|
    ensures events[n].Announce? && events[n].offer.Valid()
    ensures forall i :: 0 <= i < n ==> events[i].Announce? && events[i].key != events[n].key
  {
  }

  lemma OpenedInOrder(k: Key, offer: Offer, n: nat)
    ensures n < ORDER_WRAP ==> Opened(k, offer, n).openedAt == n
  {
  }

  lemma {:induction false} CrowdFills(states: seq<State>, events: seq<Event>, outs: seq<Option<Message>>, n: nat)
    requires IsRun(states, events, outs) && Crowd(events) && n <= |events| && n <= MAX_SESSIONS
    ensures FirstLive(states[n], events, n)
  {
    hide Next, Crowd;
    if n > 0 {
      CrowdFills(states, events, outs, n - 1);
      assert Next(states[n - 1], events[n - 1], states[n], outs[n - 1]);
      CrowdStep(states[n - 1], events, n - 1, states[n], outs[n - 1]);
    }
  }

  /** The ninth of nine announces evicts the first: with eight rivals a transfer can be lost. */
  lemma EightRivalsEvict(states: seq<State>, events: seq<Event>, outs: seq<Option<Message>>)
    requires IsRun(states, events, outs) && Crowd(events) && |events| == 9
    ensures |Rivals(events, events[0].key)| == 8
    ensures EvictedSince(states, events, |events|, events[0].key)
  {
    hide EvictedSince, Rivals;
    var n, k := MAX_SESSIONS, events[0].key;
    CrowdFills(states, events, outs, n);
    NinthEvicts(states[n], events, states[n + 1], outs[n]);
    EvictedLast(states, events, k);
    CrowdRivals(events, |events|);
    assert events[..|events|] == events;
  }

  lemma EvictedLast(states: seq<State>, events: seq<Event>, k: Key)
    requires 0 < |events| < |states|
    requires events[|events| - 1].Announce? && events[|events| - 1].key != k
    requires Evicts(states[|events| - 1], events[|events| - 1], states[|events|], k)
    ensures EvictedSince(states, events, |events|, k)
  {
    hide Evicts;
  }

  lemma NinthEvicts(s: State, events: seq<Event>, s': State, out: Option<Message>)
    requires Crowd(events) && |events| == MAX_SESSIONS + 1
    requires FirstLive(s, events, MAX_SESSIONS) && Next(s, events[MAX_SESSIONS], s', out)
    ensures Evicts(s, events[MAX_SESSIONS], s', events[0].key)
  {
    hide Crowd, Opened;
    var e := events[MAX_SESSIONS];
    CrowdAt(events, MAX_SESSIONS);
    assert e.key !in s.live;
    var rest := s.live - {e.key};
    assert rest == s.live;
    var v :| Oldest(rest, v) && s' == State((rest - {v})[e.key := Opened(e.key, e.offer, s.opens)], s.opens + 1);
    assert rest[v].openedAt <= rest[events[0].key].openedAt;
    assert v == events[0].key;
  }

  lemma {:induction false} CrowdRivals(events: seq<Event>, n: nat)
    requires Crowd(events) && 0 < n <= |events|
    ensures |Rivals(events[..n], events[0].key)| == n - 1
    ensures forall i :: n <= i < |events| ==> events[i].key !in Rivals(events[..n], events[0].key)
  {
    hide Rivals;
    var before := events[..n - 1];
    assert events[..n] == before + [events[n - 1]];
    RivalStep(before, events[n - 1], events[0].key);
    if n > 1 {
      CrowdRivals(events, n - 1);
    }
  }
}
