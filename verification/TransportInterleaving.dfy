/** Many senders broadcasting at once: every payload arrives exactly once, on time. */
module TransportInterleaving {
  import opened Words
  import opened CanTypes
  import opened TransportProtocol
  import opened TransportRuns
  import opened TransportBam

  /** One broadcast a node sends. */
  datatype Sent = Sent(priority: u8, pgn: u32, data: seq<u8>)
  {
    predicate Sendable() {
      1 <= |data| <= MAX_TRANSPORT
    }
  }

  predicate AllSendable(sent: seq<Sent>) {
    forall i :: 0 <= i < |sent| ==> sent[i].Sendable()
  }

  /** The frames of one node's broadcasts, one broadcast after the other. */
  function FramesOf(source: u8, sent: seq<Sent>): seq<Frame>
    requires AllSendable(sent)
  {
    if sent == [] then []
    else
      var last := sent[|sent| - 1];
      FramesOf(source, sent[..|sent| - 1]) + BamFrames(last.priority, last.pgn, source, last.data)
  }

  /** What should come back for those frames: the message at each last frame, nothing else. */
  function OutputsOf(source: u8, sent: seq<Sent>): seq<Option<Message>>
    requires AllSendable(sent)
  {
    if sent == [] then []
    else
      var last := sent[|sent| - 1];
      OutputsOf(source, sent[..|sent| - 1]) + seq(PacketCount(|last.data|), _ => None)
      + [Some(BamMessage(last.pgn, source, last.data))]
  }

  /** The frames on the bus that belong to key k, in bus order. */
  function Own(frames: seq<Frame>, k: Key): seq<Frame> {
    if frames == [] then []
    else
      var own, f := Own(frames[..|frames| - 1], k), frames[|frames| - 1];
      if Classify(f).Of(k) then own + [f] else own
  }

  /** The outputs returned at the frames of key k, in bus order. */
  function OwnOutputs(frames: seq<Frame>, outs: seq<Option<Message>>, k: Key): seq<Option<Message>>
    requires |outs| == |frames|
  {
    if frames == [] then []
    else
      var own := OwnOutputs(frames[..|frames| - 1], outs[..|frames| - 1], k);
      if Classify(frames[|frames| - 1]).Of(k) then own + [outs[|frames| - 1]] else own
  }

  predicate IsSender(k: Key, senders: map<u8, seq<Sent>>) {
    k.source in senders && k == Sender(k.source)
  }

  predicate OfSender(e: Event, senders: map<u8, seq<Sent>>) {
    !e.Other? && IsSender(e.key, senders)
  }

  /** The event is an announce that opens a transfer. */
  predicate Opening(e: Event) {
    e.Announce? && e.offer.Valid()
  }

  /**
   The bus carries complete broadcasts of the given senders, interleaved in any way
   with each other and with any frames of other keys that open no transfer: frames
   that are not transport frames, stray data packets and impossible announces.
   */
  ghost predicate Interleaves(frames: seq<Frame>, senders: map<u8, seq<Sent>>) {
    && (forall s :: s in senders ==> AllSendable(senders[s]) && Own(frames, Sender(s)) == FramesOf(s, senders[s]))
    && (forall i :: 0 <= i < |frames| && Opening(Classify(frames[i])) ==> IsSender(Classify(frames[i]).key, senders))
  }

  // ----- one sender, seen through its own frames

  lemma {:induction false} PendingSeesOwnOnly(frames: seq<Frame>, k: Key)
    ensures Pending(Events(frames), k) == Pending(Events(Own(frames, k)), k)
  {
    hide Classify;
    if frames != [] {
      var init, f := frames[..|frames| - 1], frames[|frames| - 1];
      PendingSeesOwnOnly(init, k);
      assert Events(frames)[..|frames| - 1] == Events(init);
      if Classify(f).Of(k) {
        assert Events(Own(frames, k))[..|Own(init, k)|] == Events(Own(init, k));
      }
    }
  }

  lemma {:induction false} OutputsLength(source: u8, sent: seq<Sent>)
    requires AllSendable(sent)
    ensures |OutputsOf(source, sent)| == |FramesOf(source, sent)|
  {
    hide BamFrames;
    if sent != [] { OutputsLength(source, sent[..|sent| - 1]); }
  }

  /** Fed alone, the frames of one sender make exactly the expected messages due. */
  lemma {:induction false} DueInSent(source: u8, sent: seq<Sent>, c: nat)
    requires AllSendable(sent) && c < |FramesOf(source, sent)|
    ensures |OutputsOf(source, sent)| == |FramesOf(source, sent)|
    ensures Due(Events(FramesOf(source, sent)[..c + 1])) == OutputsOf(source, sent)[c]
  {
    hide Due, Classify, BamFrames;
    var init, last := sent[..|sent| - 1], sent[|sent| - 1];
    var earlier := FramesOf(source, init);
    var bam := BamFrames(last.priority, last.pgn, source, last.data);
    OutputsLength(source, init);
    if c < |earlier| {
      DueInSent(source, init, c);
      assert FramesOf(source, sent)[..c + 1] == earlier[..c + 1];
    } else {
      var d := c - |earlier|;
      BamIsClassified(last.priority, last.pgn, source, last.data);
      assert Events(FramesOf(source, sent)[..c + 1]) == Events(earlier) + Events(bam)[..d + 1];
      DueInBam(Events(earlier), last.pgn, source, last.data, d);
    }
  }

  // ----- nobody is evicted

  /** Only announced senders are ever live. */
  lemma {:induction false} LiveKeysAreSenders(states: seq<State>, frames: seq<Frame>, outs: seq<Option<Message>>,
                                              senders: map<u8, seq<Sent>>, n: nat, k: Key)
    requires IsRun(states, Events(frames), outs) && Interleaves(frames, senders)
    requires n <= |frames| && k in states[n].live
    ensures IsSender(k, senders)
  {
    hide Next, Classify, Own, FramesOf, IsSender;
    var events := Events(frames);
    TableMatchesHistory(states, events, outs, n, k);
    AnnouncedIsSender(frames, senders, n, k);
  }

  /** Only a sender has a valid announce pending. */
  lemma AnnouncedIsSender(frames: seq<Frame>, senders: map<u8, seq<Sent>>, n: nat, k: Key)
    requires Interleaves(frames, senders) && n <= |frames|
    requires Pending(Events(frames)[..n], k).Some? && Pending(Events(frames)[..n], k).value.offer.Valid()
    ensures IsSender(k, senders)
  {
    hide Pending, Classify, Own, FramesOf, IsSender;
    var events := Events(frames);
    var at := AnnouncedAt(events[..n], k);
    assert events[at - 1] == events[..n][at - 1] == Classify(frames[at - 1]);
    assert Opening(Classify(frames[at - 1]));
  }

  lemma EightSendersFit(live: map<Key, Session>, senders: map<u8, seq<Sent>>, announcer: u8)
    requires |senders| <= MAX_SESSIONS && announcer in senders
    requires forall k :: k in live ==> IsSender(k, senders)
    ensures |live - {Sender(announcer)}| < MAX_SESSIONS
  {
    var rest := live - {Sender(announcer)};
    var sources := set k | k in rest :: k.source;
    var others := senders.Keys - {announcer};
    SourcesCount(rest.Keys);
    assert sources == set k | k in rest.Keys :: k.source;
    SubsetSize(sources, others);
    assert |others| == |senders.Keys| - 1;
    assert |senders.Keys| == |senders|;
    assert |rest.Keys| == |rest|;
  }

  lemma {:induction false} SourcesCount(keys: set<Key>)
    requires forall k :: k in keys ==> k == Sender(k.source)
    ensures |set k | k in keys :: k.source| == |keys|
    decreases |keys|
  {
    if keys != {} {
      var k :| k in keys;
      SourcesCount(keys - {k});
      assert (set j | j in keys :: j.source) == (set j | j in keys - {k} :: j.source) + {k.source};
      assert k.source !in (set j | j in keys - {k} :: j.source);
    }
  }

  lemma {:induction false} NobodyEvicted(states: seq<State>, frames: seq<Frame>, outs: seq<Option<Message>>,
                                         senders: map<u8, seq<Sent>>, n: nat, k: Key)
    requires IsRun(states, Events(frames), outs) && Interleaves(frames, senders)
    requires |senders| <= MAX_SESSIONS && n <= |frames|
    ensures !EvictedSince(states, Events(frames), n, k)
  {
    hide Next, Classify, Own, FramesOf;
    if n > 0 {
      var s, e := states[n - 1], Events(frames)[n - 1];
      NobodyEvicted(states, frames, outs, senders, n - 1, k);
      assert Next(s, e, states[n], outs[n - 1]);
      if Evicts(s, e, states[n], k) {
        OnlyOwnKeyChanges(s, e, states[n], outs[n - 1], k);
        assert e == Classify(frames[n - 1]) && Opening(e);
        forall j | j in s.live
          ensures IsSender(j, senders)
        {
          LiveKeysAreSenders(states, frames, outs, senders, n - 1, j);
        }
        EightSendersFit(s.live, senders, e.key.source);
      }
    }
  }

  // ----- the theorem

  /** Frames of k seen so far are a prefix of the frames of k. */
  lemma {:induction false} OwnGrows(frames: seq<Frame>, k: Key, n: nat)
    requires n <= |frames|
    ensures Own(frames[..n], k) <= Own(frames, k)
    decreases |frames|
  {
    hide Classify;
    if n < |frames| {
      var init := frames[..|frames| - 1];
      OwnGrows(init, k, n);
      assert init[..n] == frames[..n];
    } else {
      assert frames[..n] == frames;
    }
  }

  /** One own frame of a sender returns what that sender's next frame should return. */
  lemma OwnFrameOutput(states: seq<State>, frames: seq<Frame>, outs: seq<Option<Message>>,
                       senders: map<u8, seq<Sent>>, n: nat, source: u8)
    requires IsRun(states, Events(frames), outs) && Interleaves(frames, senders)
    requires |senders| <= MAX_SESSIONS && source in senders
    requires n < |frames| && Classify(frames[n]).Of(Sender(source))
    ensures var c := |Own(frames[..n], Sender(source))|;
            c < |OutputsOf(source, senders[source])| && outs[n] == OutputsOf(source, senders[source])[c]
  {
    hide Next, Classify, FramesOf, OutputsOf, EvictedSince, Pending;
    var k := Sender(source);
    var events, sent := Events(frames), senders[source];
    var upTo := frames[..n + 1];
    assert upTo[..n] == frames[..n] && upTo[n] == frames[n];
    var c := |Own(frames[..n], k)|;
    assert Own(upTo, k) == Own(frames[..n], k) + [frames[n]];
    OwnGrows(frames, k, n + 1);
    assert Own(upTo, k) == FramesOf(source, sent)[..c + 1];
    DeliveredExactly(states, events, outs, n);
    NobodyEvicted(states, frames, outs, senders, n, k);
    assert events[n] == Classify(frames[n]);
    assert events[..n + 1] == Events(upTo);
    PendingSeesOwnOnly(upTo, k);
    assert Due(Events(upTo)) == Due(Events(Own(upTo, k)));
    DueInSent(source, sent, c);
  }

  lemma {:induction false} OwnOutputsPrefix(states: seq<State>, frames: seq<Frame>, outs: seq<Option<Message>>,
                                            senders: map<u8, seq<Sent>>, n: nat, source: u8)
    requires IsRun(states, Events(frames), outs) && Interleaves(frames, senders)
    requires |senders| <= MAX_SESSIONS && source in senders && n <= |frames|
    ensures var c := |Own(frames[..n], Sender(source))|;
            && c <= |OutputsOf(source, senders[source])|
            && OwnOutputs(frames[..n], outs[..n], Sender(source)) == OutputsOf(source, senders[source])[..c]
    decreases n
  {
    hide Next, Interleaves, Classify, FramesOf, OutputsOf;
    if n > 0 {
      OwnOutputsPrefix(states, frames, outs, senders, n - 1, source);
      assert frames[..n][..n - 1] == frames[..n - 1] && outs[..n][..n - 1] == outs[..n - 1];
      if Classify(frames[n - 1]).Of(Sender(source)) {
        OwnFrameOutput(states, frames, outs, senders, n - 1, source);
      }
    }
  }

  /** A frame of no sender returns nothing. */
  lemma ForeignFrameIsSilent(states: seq<State>, frames: seq<Frame>, outs: seq<Option<Message>>,
                             senders: map<u8, seq<Sent>>, i: nat)
    requires IsRun(states, Events(frames), outs) && Interleaves(frames, senders)
    requires i < |frames| && !OfSender(Classify(frames[i]), senders)
    ensures outs[i] == None
  {
    hide Next, Classify, Interleaves, IsSender, Pending, EvictedSince;
    var events := Events(frames);
    DeliveredExactly(states, events, outs, i);
    if Due(events[..i + 1]).Some? {
      var k := events[i].key;
      assert events[..i + 1][i] == events[i] == Classify(frames[i]);
      AnnouncedIsSender(frames, senders, i + 1, k);
    }
  }

  /**
   From an empty reassembler, any interleaving of the broadcasts of at most eight
   senders with each other and with frames of other keys that open no transfer returns,
   at the frames of each sender, each of its payloads once, at its last frame, and
   nothing in between; any other frame returns nothing.
   */
  lemma InterleavedDelivery(states: seq<State>, frames: seq<Frame>, outs: seq<Option<Message>>,
                            senders: map<u8, seq<Sent>>)
    requires IsRun(states, Events(frames), outs) && Interleaves(frames, senders)
    requires |senders| <= 8
    ensures forall s :: s in senders ==> OwnOutputs(frames, outs, Sender(s)) == OutputsOf(s, senders[s])
    ensures forall i :: 0 <= i < |frames| && !OfSender(Classify(frames[i]), senders) ==> outs[i] == None
  {
    hide Classify, FramesOf, OutputsOf, OfSender;
    forall s | s in senders
      ensures OwnOutputs(frames, outs, Sender(s)) == OutputsOf(s, senders[s])
    {
      OwnOutputsPrefix(states, frames, outs, senders, |frames|, s);
      assert frames[..|frames|] == frames && outs[..|frames|] == outs;
      OutputsLength(s, senders[s]);
    }
    forall i | 0 <= i < |frames| && !OfSender(Classify(frames[i]), senders)
      ensures outs[i] == None
    {
      ForeignFrameIsSilent(states, frames, outs, senders, i);
    }
  }
}
