/**
 What holds over whole runs of the transport protocol, whatever frames arrive.

 The reference point is the bus history alone: for a key, the most recent announce
 and the data packets that followed it. The table of the machine, and every message
 it returns, are shown to be exactly what that history says.
 */
module TransportRuns {
  import opened Words
  import opened CanTypes
  import opened TransportProtocol

  /** An announce and the data packets of the same key that came after it. */
  datatype Transfer = Transfer(offer: Offer, packets: seq<seq<u8>>)

  /** The last announce of k in the history and the packets of k since. */
  function Pending(events: seq<Event>, k: Key): Option<Transfer> {
    if events == [] then None
    else
      var e, before := events[|events| - 1], Pending(events[..|events| - 1], k);
      if !e.Of(k) then before
      else if e.Announce? then Some(Transfer(e.offer, []))
      else if before.Some? then Some(before.value.(packets := before.value.packets + [e.payload]))
      else None
  }

  /** Full-length packets numbered 1, 2, 3 and so on, none missing. */
  predicate InOrder(packets: seq<seq<u8>>) {
    forall i :: 0 <= i < |packets| ==> |packets[i]| >= MAX_CLASSIC_LENGTH && packets[i][0] == i + 1
  }

  /** Bytes 1 to 7 of each packet, one after the other. */
  function Joined(packets: seq<seq<u8>>): (bytes: seq<u8>)
    requires InOrder(packets)
    ensures |bytes| == DT_PAYLOAD * |packets|
  {
    if packets == [] then []
    else Joined(packets[..|packets| - 1]) + packets[|packets| - 1][1..8]
  }

  predicate Sound(t: Transfer) {
    t.offer.Valid() && InOrder(t.packets)
  }

  predicate Running(t: Transfer) {
    Sound(t) && |t.packets| < t.offer.packets
  }

  predicate Complete(t: Transfer) {
    Sound(t) && |t.packets| == t.offer.packets
  }

  /** The message a complete transfer carries: its bytes cut to the announced size. */
  function Carried(k: Key, t: Transfer): Message
    requires Complete(t)
  {
    Message(t.offer.pgn, k.source, k.destination, Joined(t.packets)[..t.offer.size])
  }

  /** The message the last event completes, going by the history alone. */
  function Due(events: seq<Event>): Option<Message> {
    if events == [] || !events[|events| - 1].Data? then None
    else
      var k := events[|events| - 1].key;
      var t := Pending(events, k);
      if t.Some? && Complete(t.value) then Some(Carried(k, t.value)) else None
  }

  /** The session of k is thrown out by somebody else's announce. */
  ghost predicate Evicts(s: State, e: Event, s': State, k: Key) {
    !e.Of(k) && k in s.live && k !in s'.live
  }

  /** Among the first n steps, k was evicted after its last announce. */
  ghost predicate EvictedSince(states: seq<State>, events: seq<Event>, n: nat, k: Key)
    requires n <= |events| < |states|
  {
    n > 0 && !(events[n - 1].Announce? && events[n - 1].key == k)
    && (Evicts(states[n - 1], events[n - 1], states[n], k) || EvictedSince(states, events, n - 1, k))
  }

  /** How many transfers the history opened: one per announce with a valid offer. */
  function Opens(events: seq<Event>): nat {
    if events == [] then 0
    else
      var e := events[|events| - 1];
      Opens(events[..|events| - 1]) + if e.Announce? && e.offer.Valid() then 1 else 0
  }

  /** One past the position of the last announce of k, or 0. */
  function AnnouncedAt(events: seq<Event>, k: Key): (n: nat)
    ensures n <= |events|
    ensures n > 0 <==> Pending(events, k).Some?
    ensures n > 0 ==>
              && events[n - 1].Announce? && events[n - 1].key == k
              && Pending(events, k).value.offer == events[n - 1].offer
  {
    if events == [] then 0
    else
      var e := events[|events| - 1];
      if e.Announce? && e.key == k then |events| else AnnouncedAt(events[..|events| - 1], k)
  }

  // ----- the table is what the history says

  /** s is the session that the transfer t of key k has reached. */
  ghost predicate Tracks(s: Session, k: Key, t: Transfer, order: nat) {
    && Running(t)
    && s == Session(k.source, k.destination, t.offer.pgn, t.offer.size, t.offer.packets,
                    |t.packets|, order % ORDER_WRAP, Joined(t.packets))
  }

  /** The entry of k after the given history: live exactly when running and not evicted. */
  ghost predicate EntryMatches(s: State, events: seq<Event>, k: Key, evicted: bool) {
    var t := Pending(events, k);
    && (k in s.live <==> t.Some? && Running(t.value) && !evicted)
    && (k in s.live ==> Tracks(s.live[k], k, t.value, Opens(events[..AnnouncedAt(events, k) - 1])))
  }

  lemma {:induction false} OpensCounted(states: seq<State>, events: seq<Event>, outs: seq<Option<Message>>, n: nat)
    requires IsRun(states, events, outs) && n <= |events|
    ensures states[n].opens == Opens(events[..n])
  {
    if n > 0 {
      OpensCounted(states, events, outs, n - 1);
      assert events[..n][..n - 1] == events[..n - 1];
      assert Next(states[n - 1], events[n - 1], states[n], outs[n - 1]);
    }
  }

  /** Over every run, the table after n frames is what the first n frames say. */
  lemma {:induction false} TableMatchesHistory(states: seq<State>, events: seq<Event>, outs: seq<Option<Message>>,
                                               n: nat, k: Key)
    requires IsRun(states, events, outs) && n <= |events|
    ensures EntryMatches(states[n], events[..n], k, EvictedSince(states, events, n, k))
    decreases n
  {
    hide Next, EntryMatches, Opens;
    if n == 0 {
      NothingYet(k);
    } else {
      TableMatchesHistory(states, events, outs, n - 1, k);
      OpensCounted(states, events, outs, n - 1);
      assert events[..n][..n - 1] == events[..n - 1];
      assert Next(states[n - 1], events[n - 1], states[n], outs[n - 1]);
      EntryStep(states[n - 1], events[..n - 1], events[n - 1], states[n], outs[n - 1], k,
                EvictedSince(states, events, n - 1, k));
      assert events[..n - 1] + [events[n - 1]] == events[..n];
    }
  }

  lemma NothingYet(k: Key)
    ensures EntryMatches(INITIAL, [], k, false)
  {
  }

  /** One step keeps the match between an entry and the history. */
  lemma EntryStep(s: State, events: seq<Event>, e: Event, s': State, out: Option<Message>, k: Key, evicted: bool)
    requires EntryMatches(s, events, k, evicted)
    requires s.opens == Opens(events)
    requires Next(s, e, s', out)
    ensures EntryMatches(s', events + [e], k,
                         !(e.Announce? && e.key == k) && (Evicts(s, e, s', k) || evicted))
  {
    hide Next, Opens, Joined, Running, Tracks, Complete, Carried;
    var after := events + [e];
    assert after[..|events|] == events;
    if e.Of(k) && e.Announce? {
      assert after[..AnnouncedAt(after, k) - 1] == events;
      assert Pending(after, k) == Some(Transfer(e.offer, []));
      AnnounceStep(s, e, s', out);
    } else {
      var at := AnnouncedAt(events, k);
      assert AnnouncedAt(after, k) == at;
      if at > 0 {
        assert after[..at - 1] == events[..at - 1];
      }
      if !e.Of(k) {
        OtherEntriesKept(s, e, s', out, k);
      } else if at > 0 {
        assert e == Data(k, e.payload);
        PacketStep(s, e.payload, s', out, k, Pending(events, k).value, Opens(events[..at - 1]), evicted);
      } else {
        PacketIgnored(s, e, s', out);
      }
    }
  }

  /** A step of another key leaves the entry of k alone, or evicts it. */
  lemma OtherEntriesKept(s: State, e: Event, s': State, out: Option<Message>, k: Key)
    requires Next(s, e, s', out) && !e.Of(k)
    ensures k in s'.live ==> k in s.live && s'.live[k] == s.live[k]
    ensures k in s.live && !Evicts(s, e, s', k) ==> k in s'.live
  {
  }

  lemma AnnounceStep(s: State, e: Event, s': State, out: Option<Message>)
    requires e.Announce? && Next(s, e, s', out)
    ensures out == None
    ensures e.key in s'.live <==> Running(Transfer(e.offer, []))
    ensures e.key in s'.live ==> Tracks(s'.live[e.key], e.key, Transfer(e.offer, []), s.opens)
  {
  }

  lemma PacketIgnored(s: State, e: Event, s': State, out: Option<Message>)
    requires e.Data? && e.key !in s.live && Next(s, e, s', out)
    ensures s' == s && out == None
  {
  }

  lemma PacketStep(s: State, payload: seq<u8>, s': State, out: Option<Message>, k: Key, t: Transfer, order: nat,
                   evicted: bool)
    requires Next(s, Data(k, payload), s', out)
    requires k in s.live <==> Running(t) && !evicted
    requires k in s.live ==> Tracks(s.live[k], k, t, order)
    ensures var t' := t.(packets := t.packets + [payload]);
            && (k in s'.live <==> Running(t') && !evicted)
            && (k in s'.live ==> Tracks(s'.live[k], k, t', order))
            && out == if Complete(t') && !evicted then Some(Carried(k, t')) else None
  {
    var t' := t.(packets := t.packets + [payload]);
    GrowInOrder(t.packets, payload);
    if k in s.live && InOrder(t'.packets) {
      assert Joined(t'.packets) == Joined(t.packets) + payload[1..8];
    }
  }

  lemma GrowInOrder(packets: seq<seq<u8>>, payload: seq<u8>)
    ensures InOrder(packets + [payload])
            <==> InOrder(packets) && |payload| >= MAX_CLASSIC_LENGTH && payload[0] == |packets| + 1
    ensures InOrder(packets + [payload]) ==> Joined(packets + [payload]) == Joined(packets) + payload[1..8]
  {
    var grown := packets + [payload];
    assert grown[..|packets|] == packets;
    assert grown[|packets|] == payload;
    if InOrder(grown) {
      forall i | 0 <= i < |packets|
        ensures |packets[i]| >= MAX_CLASSIC_LENGTH && packets[i][0] == i + 1
      {
        assert grown[i] == packets[i];
      }
    }
  }

  // ----- the theorems

  /**
   Every step of every run: a message is returned exactly when a packet completes
   the last announced transfer of its key and that transfer was not evicted, and
   then it is the message those packets carry.
   */
  lemma DeliveredExactly(states: seq<State>, events: seq<Event>, outs: seq<Option<Message>>, n: nat)
    requires IsRun(states, events, outs) && n < |events|
    ensures outs[n] == if events[n].Data? && EvictedSince(states, events, n, events[n].key) then None
                       else Due(events[..n + 1])
  {
    hide Next, Opens, Joined;
    var e := events[n];
    assert Next(states[n], e, states[n + 1], outs[n]);
    if e.Data? {
      var k := e.key;
      assert events[..n + 1][..n] == events[..n] && events[..n + 1][n] == e;
      TableMatchesHistory(states, events, outs, n, k);
      if Pending(events[..n], k).Some? {
        assert e == Data(k, e.payload);
        PacketStep(states[n], e.payload, states[n + 1], outs[n], k, Pending(events[..n], k).value,
                   Opens(events[..n][..AnnouncedAt(events[..n], k) - 1]), EvictedSince(states, events, n, k));
      } else {
        PacketIgnored(states[n], e, states[n + 1], outs[n]);
      }
    } else {
      SilentUnlessData(states[n], e, states[n + 1], outs[n]);
    }
  }

  lemma SilentUnlessData(s: State, e: Event, s': State, out: Option<Message>)
    requires Next(s, e, s', out) && !e.Data?
    ensures out == None
  {
  }

  /** Every session a run can reach: sizes, counts and buffer agree, keys are right, at most eight. */
  lemma ReachableTable(states: seq<State>, events: seq<Event>, outs: seq<Option<Message>>, n: nat)
    requires IsRun(states, events, outs) && n <= |events|
    ensures |states[n].live| <= 8
    ensures forall k :: k in states[n].live ==> states[n].live[k].Owner() == k && states[n].live[k].WellFormed()
  {
    TableSizeBound(states, events, outs, n);
    forall k | k in states[n].live
      ensures states[n].live[k].Owner() == k && states[n].live[k].WellFormed()
    {
      TableMatchesHistory(states, events, outs, n, k);
    }
  }

  /** So the one-byte packet counter never wraps and the final cut is exact. */
  lemma NothingWraps(states: seq<State>, events: seq<Event>, outs: seq<Option<Message>>, n: nat)
    requires IsRun(states, events, outs) && n < |events|
    ensures events[n].Data? && events[n].key in states[n].live ==>
              states[n].live[events[n].key].received + 1 < 0x100
    ensures outs[n].Some? ==>
              && events[n].Data? && events[n].key in states[n].live
              && |outs[n].value.data| == states[n].live[events[n].key].size
  {
    hide Next, Opens, Joined;
    ReachableTable(states, events, outs, n);
    DeliveredExactly(states, events, outs, n);
    if outs[n].Some? {
      var k := events[n].key;
      TableMatchesHistory(states, events, outs, n, k);
      assert events[..n + 1][..n] == events[..n];
      GrowInOrder(Pending(events[..n], k).value.packets, events[n].payload);
    }
  }

  lemma {:induction false} TableSizeBound(states: seq<State>, events: seq<Event>, outs: seq<Option<Message>>, n: nat)
    requires IsRun(states, events, outs) && n <= |events|
    ensures |states[n].live| <= MAX_SESSIONS
  {
    if n > 0 {
      TableSizeBound(states, events, outs, n - 1);
      assert Next(states[n - 1], events[n - 1], states[n], outs[n - 1]);
      SizeStep(states[n - 1], events[n - 1], states[n], outs[n - 1]);
    }
  }

  lemma SizeStep(s: State, e: Event, s': State, out: Option<Message>)
    requires |s.live| <= MAX_SESSIONS && Next(s, e, s', out)
    ensures |s'.live| <= MAX_SESSIONS
  {
    if e.Announce? {
      RemoveSize(s.live, e.key);
      var rest := s.live - {e.key};
      if e.offer.Valid() && |rest| >= MAX_SESSIONS {
        var v :| Oldest(rest, v) && s'.live == (rest - {v})[e.key := Opened(e.key, e.offer, s.opens)];
        RemoveSize(rest, v);
        AddSize(rest - {v}, e.key, Opened(e.key, e.offer, s.opens));
      } else if e.offer.Valid() {
        AddSize(rest, e.key, Opened(e.key, e.offer, s.opens));
      }
    } else if e.Data? && e.key in s.live {
      RemoveSize(s.live, e.key);
      if e.key in s'.live {
        assert s'.live.Keys == s.live.Keys;
        assert |s'.live.Keys| == |s.live.Keys|;
      }
    }
  }

  lemma RemoveSize<V>(m: map<Key, V>, k: Key)
    ensures |m - {k}| == if k in m then |m| - 1 else |m|
  {
    assert (m - {k}).Keys == m.Keys - {k};
    assert |(m - {k}).Keys| == |m - {k}|;
  }

  lemma AddSize<V>(m: map<Key, V>, k: Key, v: V)
    requires k !in m
    ensures |m[k := v]| == |m| + 1
  {
    assert m[k := v].Keys == m.Keys + {k};
    assert |m[k := v].Keys| == |m[k := v]|;
  }

  lemma {:induction false} SubsetSize<T>(a: set<T>, b: set<T>)
    requires a <= b
    ensures |a| <= |b|
    decreases |a|
  {
    if a != {} {
      var x :| x in a;
      SubsetSize(a - {x}, b - {x});
    }
  }

  /**
   A step changes the entry of its own key only, with one exception: a valid announce
   while eight other transfers are live removes exactly the oldest of those.
   */
  lemma OnlyOwnKeyChanges(s: State, e: Event, s': State, out: Option<Message>, k: Key)
    requires Next(s, e, s', out) && !e.Of(k)
    ensures !Evicts(s, e, s', k) ==> (k in s'.live <==> k in s.live) && (k in s.live ==> s'.live[k] == s.live[k])
    ensures Evicts(s, e, s', k) ==>
              && e.Announce? && e.offer.Valid() && |s.live - {e.key}| >= MAX_SESSIONS
              && Oldest(s.live - {e.key}, k)
              && forall j :: j in s.live && j != k && j != e.key ==> j in s'.live && s'.live[j] == s.live[j]
  {
    hide Oldest;
    OtherEntriesKept(s, e, s', out, k);
    if Evicts(s, e, s', k) {
      assert e.Announce?;
      EvictionStep(s, e.key, e.offer, s', k);
    }
  }

  lemma EvictionStep(s: State, announcer: Key, offer: Offer, s': State, k: Key)
    requires NextAnnounce(s, announcer, offer, s')
    requires k in s.live && k !in s'.live && k != announcer
    ensures offer.Valid() && |s.live - {announcer}| >= MAX_SESSIONS
    ensures Oldest(s.live - {announcer}, k)
    ensures forall j :: j in s.live && j != k && j != announcer ==> j in s'.live && s'.live[j] == s.live[j]
  {
    hide Oldest;
    var rest := s.live - {announcer};
    assert k in rest;
    var v :| Oldest(rest, v) && s' == State((rest - {v})[announcer := Opened(announcer, offer, s.opens)], s.opens + 1);
    assert v == k;
  }

  /**
   While at most 2^32 transfers have been opened, the evicted session is the one
   announced longest ago.
   */
  lemma EvictsTheEarliestAnnounced(states: seq<State>, events: seq<Event>, outs: seq<Option<Message>>, n: nat, k: Key,
                                   j: Key)
    requires IsRun(states, events, outs) && n < |events|
    requires j in states[n].live && j != k && !events[n].Of(j)
    ensures Opens(events[..n]) <= ORDER_WRAP && Evicts(states[n], events[n], states[n + 1], k) ==>
              && states[n].live[k].openedAt < states[n].live[j].openedAt
              && AnnouncedAt(events[..n], k) < AnnouncedAt(events[..n], j)
  {
    hide Joined;
    if Opens(events[..n]) <= ORDER_WRAP && Evicts(states[n], events[n], states[n + 1], k) {
      assert Next(states[n], events[n], states[n + 1], outs[n]);
      OnlyOwnKeyChanges(states[n], events[n], states[n + 1], outs[n], k);
      OrdersFollowAnnounces(states, events, outs, n, k, j);
    }
  }

  /** Within that bound open orders are distinct and follow the order of the announces. */
  lemma OrdersFollowAnnounces(states: seq<State>, events: seq<Event>, outs: seq<Option<Message>>, n: nat, k: Key,
                              j: Key)
    requires IsRun(states, events, outs) && n <= |events|
    requires k in states[n].live && j in states[n].live && j != k
    ensures Opens(events[..n]) <= ORDER_WRAP ==>
              && states[n].live[k].openedAt < Opens(events[..n])
              && states[n].live[k].openedAt != states[n].live[j].openedAt
              && (states[n].live[k].openedAt < states[n].live[j].openedAt
                  <==> AnnouncedAt(events[..n], k) < AnnouncedAt(events[..n], j))
  {
    hide IsRun, Opens, AnnouncedAt;
    var before := events[..n];
    if Opens(before) <= ORDER_WRAP {
      OrderIsOpens(states, events, outs, n, k);
      OrderIsOpens(states, events, outs, n, j);
      var a, b := AnnouncedAt(before, k), AnnouncedAt(before, j);
      if a < b {
        OpensGrow(before[..b - 1], a);
        assert before[..b - 1][..a - 1] == before[..a - 1];
      } else {
        OpensGrow(before[..a - 1], b);
        assert before[..a - 1][..b - 1] == before[..b - 1];
      }
    }
  }

  /** The stored order of a live session counts the transfers opened before it. */
  lemma OrderIsOpens(states: seq<State>, events: seq<Event>, outs: seq<Option<Message>>, n: nat, k: Key)
    requires IsRun(states, events, outs) && n <= |events|
    requires Opens(events[..n]) <= ORDER_WRAP
    requires k in states[n].live
    ensures var before := events[..n];
            var a := AnnouncedAt(before, k);
            && a > 0 && before[a - 1].Announce? && before[a - 1].key == k && before[a - 1].offer.Valid()
            && states[n].live[k].openedAt == Opens(before[..a - 1]) < Opens(before)
  {
    hide IsRun, Opens, Joined;
    var before := events[..n];
    TableMatchesHistory(states, events, outs, n, k);
    OpensGrow(before, AnnouncedAt(before, k));
  }

  /** A valid announce at position at - 1 counts from then on. */
  lemma {:induction false} OpensGrow(events: seq<Event>, at: nat)
    requires 0 < at <= |events| && events[at - 1].Announce? && events[at - 1].offer.Valid()
    ensures Opens(events[..at - 1]) < Opens(events)
    decreases |events|
  {
    var init := events[..|events| - 1];
    if at < |events| {
      OpensGrow(init, at);
      assert init[..at - 1] == events[..at - 1];
    }
  }
}
