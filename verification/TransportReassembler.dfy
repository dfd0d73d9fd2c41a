/** The receive-side reassembler: a vector of sessions updated in place. */
module TransportReassembler {
  import opened Words
  import opened CanTypes
  import opened J1939
  import opened TransportProtocol
  import opened TransportRuns

  ghost predicate DistinctKeys(ss: seq<Session>) {
    forall i, j :: 0 <= i < j < |ss| ==> ss[i].Owner() != ss[j].Owner()
  }

  /** The session vector read as a map by key; its order is forgotten. */
  ghost function TableOf(ss: seq<Session>): map<Key, Session> {
    if ss == [] then map[] else TableOf(ss[..|ss| - 1])[ss[|ss| - 1].Owner() := ss[|ss| - 1]]
  }

  lemma {:induction false} InTable(ss: seq<Session>, i: nat)
    requires DistinctKeys(ss) && i < |ss|
    ensures ss[i].Owner() in TableOf(ss) && TableOf(ss)[ss[i].Owner()] == ss[i]
  {
    if i < |ss| - 1 { InTable(ss[..|ss| - 1], i); }
  }

  lemma {:induction false} FromTable(ss: seq<Session>, k: Key) returns (i: nat)
    requires k in TableOf(ss)
    ensures i < |ss| && ss[i].Owner() == k
  {
    if ss[|ss| - 1].Owner() == k {
      i := |ss| - 1;
    } else {
      i := FromTable(ss[..|ss| - 1], k);
    }
  }

  lemma {:induction false} KeyNotIn(ss: seq<Session>, k: Key)
    requires forall i :: 0 <= i < |ss| ==> ss[i].Owner() != k
    ensures k !in TableOf(ss) && TableOf(ss) - {k} == TableOf(ss)
  {
    if ss != [] {
      KeyNotIn(ss[..|ss| - 1], k);
    }
  }

  lemma {:induction false} TableSize(ss: seq<Session>)
    requires DistinctKeys(ss)
    ensures |TableOf(ss)| == |ss|
  {
    if ss != [] {
      var init, last := ss[..|ss| - 1], ss[|ss| - 1];
      TableSize(init);
      KeyNotIn(init, last.Owner());
      assert TableOf(ss).Keys == TableOf(init).Keys + {last.Owner()};
    }
  }

  /** A map that agrees with ss both ways is the table of ss. */
  lemma SameTable(m: map<Key, Session>, ss: seq<Session>)
    requires DistinctKeys(ss)
    requires forall i :: 0 <= i < |ss| ==> ss[i].Owner() in m && m[ss[i].Owner()] == ss[i]
    requires forall k :: k in m ==> k in TableOf(ss)
    ensures TableOf(ss) == m
  {
    forall k | k in TableOf(ss)
      ensures k in m && m[k] == TableOf(ss)[k]
    {
      var i := FromTable(ss, k);
      InTable(ss, i);
    }
  }

  lemma OldestInTable(ss: seq<Session>, oldest: Session)
    requires DistinctKeys(ss) && oldest in ss
    requires forall i :: 0 <= i < |ss| ==> oldest.openedAt <= ss[i].openedAt
    ensures Oldest(TableOf(ss), oldest.Owner())
  {
    var at :| 0 <= at < |ss| && ss[at] == oldest;
    InTable(ss, at);
    forall k | k in TableOf(ss)
      ensures oldest.openedAt <= TableOf(ss)[k].openedAt
    {
      var i := FromTable(ss, k);
      InTable(ss, i);
    }
  }

  /** Moving the last session over position i and dropping the end erases the key at i. */
  lemma SwapWithLastErases(ss: seq<Session>, i: nat)
    requires DistinctKeys(ss) && i < |ss|
    ensures var after := ss[i := ss[|ss| - 1]][..|ss| - 1];
            DistinctKeys(after) && TableOf(after) == TableOf(ss) - {ss[i].Owner()}
  {
    var after := ss[i := ss[|ss| - 1]][..|ss| - 1];
    var m := TableOf(ss) - {ss[i].Owner()};
    forall j | 0 <= j < |after|
      ensures after[j].Owner() in m && m[after[j].Owner()] == after[j]
    {
      InTable(ss, if j == i then |ss| - 1 else j);
    }
    forall k | k in m
      ensures k in TableOf(after)
    {
      var j := FromTable(ss, k);
      InTable(after, if j == |ss| - 1 then i else j);
    }
    SameTable(m, after);
  }

  lemma PushAdds(ss: seq<Session>, s: Session)
    requires DistinctKeys(ss) && s.Owner() !in TableOf(ss)
    ensures DistinctKeys(ss + [s]) && TableOf(ss + [s]) == TableOf(ss)[s.Owner() := s]
  {
    forall i | 0 <= i < |ss|
      ensures ss[i].Owner() != s.Owner()
    {
      InTable(ss, i);
    }
    assert (ss + [s])[..|ss|] == ss;
  }

  lemma UpdateReplaces(ss: seq<Session>, i: nat, s: Session)
    requires DistinctKeys(ss) && i < |ss| && s.Owner() == ss[i].Owner()
    ensures DistinctKeys(ss[i := s]) && TableOf(ss[i := s]) == TableOf(ss)[s.Owner() := s]
  {
    var m, after := TableOf(ss)[s.Owner() := s], ss[i := s];
    forall j | 0 <= j < |after|
      ensures after[j].Owner() in m && m[after[j].Owner()] == after[j]
    {
      if j != i { InTable(ss, j); }
    }
    forall k | k in m
      ensures k in TableOf(after)
    {
      if k == s.Owner() {
        InTable(after, i);
      } else {
        var j := FromTable(ss, k);
        InTable(after, j);
      }
    }
    SameTable(m, after);
  }

  class Reassembler {
    var sessions: seq<Session>
    var nextOrder: u32

    ghost var opens: nat                        // transfers opened so far, unwrapped
    ghost var history: seq<Frame>               // every frame accepted so far
    ghost var states: seq<State>                // the table before and after each of them
    ghost var outcomes: seq<Option<Message>>    // what each of them returned

    ghost predicate Consistent()
      reads this
    {
      && DistinctKeys(sessions)
      && |sessions| <= MAX_SESSIONS
      && nextOrder == opens % ORDER_WRAP
    }

    ghost function View(): State
      reads this
    {
      State(TableOf(sessions), opens)
    }

    /** The fields are consistent, and the table is where the recorded run ends. */
    ghost predicate Valid()
      reads this
    {
      && Consistent()
      && IsRun(states, Events(history), outcomes)
      && states[|history|] == View()
    }

    /** Every stored session of a valid reassembler is consistent with its announce. */
    lemma SessionsWellFormed()
      requires Valid()
      ensures forall i :: 0 <= i < |sessions| ==> sessions[i].WellFormed()
    {
      ReachableTable(states, Events(history), outcomes, |history|);
      forall i | 0 <= i < |sessions|
        ensures sessions[i].WellFormed()
      {
        InTable(sessions, i);
      }
    }

    constructor ()
      ensures Valid() && history == [] && sessions == []
    {
      sessions, nextOrder := [], 0;
      opens, history, states, outcomes := 0, [], [INITIAL], [];
    }

    method Find(source: u8, destination: u8) returns (at: Option<nat>)
      requires DistinctKeys(sessions)
      ensures at.None? <==> Key(source, destination) !in TableOf(sessions)
      ensures at.Some? ==> at.value < |sessions| && sessions[at.value].Owner() == Key(source, destination)
      ensures at.Some? ==> TableOf(sessions)[Key(source, destination)] == sessions[at.value]
    {
      for i := 0 to |sessions|
        invariant forall j :: 0 <= j < i ==> sessions[j].Owner() != Key(source, destination)
      {
        if sessions[i].source == source && sessions[i].destination == destination {
          InTable(sessions, i);
          return Some(i);
        }
      }
      KeyNotIn(sessions, Key(source, destination));
      return None;
    }

    method Erase(source: u8, destination: u8)
      requires Consistent()
      modifies this`sessions
      ensures Consistent() && |sessions| <= old(|sessions|)
      ensures TableOf(sessions) == old(TableOf(sessions)) - {Key(source, destination)}
      ensures Key(source, destination) in old(TableOf(sessions)) ==> |sessions| == old(|sessions|) - 1
    {
      for i := 0 to |sessions|
        invariant sessions == old(sessions)
        invariant forall j :: 0 <= j < i ==> sessions[j].Owner() != Key(source, destination)
      {
        if sessions[i].source == source && sessions[i].destination == destination {
          SwapWithLastErases(sessions, i);
          sessions := sessions[i := sessions[|sessions| - 1]];
          sessions := sessions[..|sessions| - 1];
          return;
        }
      }
      KeyNotIn(sessions, Key(source, destination));
    }

    method EvictOldest() returns (ghost victim: Option<Key>)
      requires Consistent()
      modifies this`sessions
      ensures Consistent()
      ensures victim.None? <==> old(sessions) == []
      ensures victim.None? ==> sessions == old(sessions)
      ensures victim.Some? ==>
                && Oldest(old(TableOf(sessions)), victim.value)
                && TableOf(sessions) == old(TableOf(sessions)) - {victim.value}
                && |sessions| == old(|sessions|) - 1
    {
      if sessions == [] {
        return None;
      }
      var oldest := sessions[0];
      for i := 0 to |sessions|
        invariant oldest in sessions
        invariant forall j :: 0 <= j < i ==> oldest.openedAt <= sessions[j].openedAt
      {
        if sessions[i].openedAt < oldest.openedAt {
          oldest := sessions[i];
        }
      }
      victim := Some(oldest.Owner());
      OldestInTable(sessions, oldest);
      Erase(oldest.source, oldest.destination);
    }

    /** Feeds one received frame; returns the message when it completes a transfer. */
    method Accept(f: Frame) returns (out: Option<Message>)
      requires Valid()
      modifies this
      ensures Valid()
      ensures Next(old(View()), Classify(f), View(), out)
      ensures history == old(history) + [f]
      ensures outcomes == old(outcomes) + [out]
      ensures states == old(states) + [View()]
      ensures out == None || out == Due(Events(history))
    {
      out := Step(f);
      ExtendRun(states, history, outcomes, f, View(), out);
      history, outcomes, states := history + [f], outcomes + [out], states + [View()];
      DeliveredExactly(states, Events(history), outcomes, |history| - 1);
      assert Events(history)[..|history|] == Events(history);
    }

    method Step(f: Frame) returns (out: Option<Message>)
      requires Consistent()
      modifies this`sessions, this`nextOrder, this`opens
      ensures Consistent()
      ensures Next(old(View()), Classify(f), View(), out)
    {
      hide J1939Id.Pgn;
      if !f.id.Extended() {
        return None;
      }
      var decoded := Decode(f.id).value;
      var pgn := decoded.Pgn();
      var source := decoded.SourceAddress();
      var destination := decoded.DestinationAddress();
      if pgn == PGN_TP_CM {
        if |f.data| < MAX_CLASSIC_LENGTH {
          return None;
        }
        var control := f.data[0];
        if control == TP_BAM || control == TP_RTS {
          OpenSession(source, destination, f.data);
        }
        return None;
      }
      if pgn == PGN_TP_DT {
        out := TakePacket(source, destination, f.data);
        return out;
      }
      return None;
    }

    /** The announce branch of accept: drop the old transfer, validate, make room, open. */
    method OpenSession(source: u8, destination: u8, payload: seq<u8>)
      requires Consistent()
      requires |payload| >= MAX_CLASSIC_LENGTH
      modifies this`sessions, this`nextOrder, this`opens
      ensures Consistent()
      ensures NextAnnounce(old(View()), Key(source, destination), OfferOf(payload), View())
    {
      hide TableOf, LittleEndian16, LittleEndian24;
      ghost var k := Key(source, destination);
      var size: u16 := LittleEndian16(payload[1], payload[2]);
      var packets: u8 := payload[3];
      var expected: u16 := (size + DT_PAYLOAD - 1) / DT_PAYLOAD;
      Erase(source, destination);
      ghost var rest := TableOf(sessions);
      TableSize(sessions);
      if size == 0 || size > MAX_TRANSPORT || packets == 0 || packets != expected {
        return;
      }
      if |sessions| >= MAX_SESSIONS {
        ghost var victim := EvictOldest();
        assert Oldest(rest, victim.value);
      }
      var pgn: u32 := LittleEndian24(payload[5], payload[6], payload[7]);
      var started := Session(source, destination, pgn, size, packets, 0, nextOrder, []);
      nextOrder := (nextOrder + 1) % ORDER_WRAP;
      PushAdds(sessions, started);
      sessions := sessions + [started];
      opens := opens + 1;
    }

    /** The data branch of accept. */
    method TakePacket(source: u8, destination: u8, payload: seq<u8>) returns (out: Option<Message>)
      requires Consistent()
      modifies this`sessions
      ensures Consistent()
      ensures NextData(old(View()), Key(source, destination), payload, View(), out)
    {
      var found := Find(source, destination);
      if found.None? {
        return None;
      }
      var at := found.value;
      var active := sessions[at];
      if |payload| < MAX_CLASSIC_LENGTH {
        Erase(source, destination);
        return None;
      }
      if payload[0] != (active.received + 1) % 0x100 {
        Erase(source, destination);
        return None;
      }
      for i := 0 to DT_PAYLOAD
        invariant active == sessions[at].(buffer := sessions[at].buffer + payload[1..1 + i])
      {
        active := active.(buffer := active.buffer + [payload[i + 1]]);
      }
      active := active.(received := (active.received + 1) % 0x100);
      assert active == Grown(sessions[at], payload);
      UpdateReplaces(sessions, at, active);
      sessions := sessions[at := active];
      if active.received >= active.packets {
        var total := if active.size <= |active.buffer| then active.size else |active.buffer|;
        var bytes := [];
        for i := 0 to total
          invariant bytes == active.buffer[..i]
        {
          bytes := bytes + [active.buffer[i]];
        }
        Erase(source, destination);
        assert TableOf(sessions) == old(TableOf(sessions)) - {Key(source, destination)};
        assert bytes == Cut(active.buffer, active.size);
        return Some(Message(active.pgn, source, destination, bytes));
      }
      return None;
    }
  }

  lemma ExtendRun(states: seq<State>, frames: seq<Frame>, outs: seq<Option<Message>>, f: Frame, s: State,
                  out: Option<Message>)
    requires IsRun(states, Events(frames), outs)
    requires Next(states[|frames|], Classify(f), s, out)
    ensures IsRun(states + [s], Events(frames + [f]), outs + [out])
  {
    hide Next, Classify;
    assert Events(frames + [f]) == Events(frames) + [Classify(f)];
  }
}
