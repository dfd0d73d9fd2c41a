/** Printing a whole database as DBC text and parsing it back, float marks included. */
module DbcFileRoundTrip {
  import opened Words
  import opened CanTypes
  import opened Signals
  import opened DbcText
  import opened DbcRecords
  import opened DbcPrinting
  import opened DbcFile
  import opened DbcFileLaws
  import opened DbcLines

  const TRANSMITTER := "Vector__XXX"

  function HeaderOf(m: Message): Header {
    Header(m.id, m.name, m.byteLength)
  }

  // ----- the printed file

  function SignalTexts(num: NumberText, signals: seq<SignalEntry>): seq<string> {
    seq(|signals|, j requires 0 <= j < |signals| => PrintSignal(num, signals[j].definition, ""))
  }

  function Indented(lines: seq<string>): seq<string> {
    seq(|lines|, j requires 0 <= j < |lines| => " " + lines[j])
  }

  /** A BO_ line and the indented SG_ lines of each message. */
  function RecordLines(num: NumberText, ms: seq<Message>): seq<string> {
    if ms == [] then []
    else
      [PrintHeader(HeaderOf(ms[0]), TRANSMITTER)] + Indented(SignalTexts(num, ms[0].signals))
      + RecordLines(num, ms[1..])
  }

  /** The record that marks a float signal: kind 1 is 32 bits wide, kind 2 is 64. */
  function RecordOf(m: Message, e: SignalEntry): ValueType {
    ValueType(RawOfId(m.id), e.definition.name, if e.definition.length == 32 then 1 else 2)
  }

  function FloatRecords(m: Message, signals: seq<SignalEntry>): seq<ValueType> {
    if signals == [] then []
    else if signals[0].definition.isFloat then [RecordOf(m, signals[0])] + FloatRecords(m, signals[1..])
    else FloatRecords(m, signals[1..])
  }

  function Records(ms: seq<Message>): seq<ValueType> {
    if ms == [] then [] else FloatRecords(ms[0], ms[0].signals) + Records(ms[1..])
  }

  function PrintRecord(v: ValueType): string {
    "SIG_VALTYPE_ " + Decimal(v.rawId) + " " + v.signal + " : " + Decimal(v.kind) + ";"
  }

  function RecordTexts(vs: seq<ValueType>): seq<string> {
    seq(|vs|, i requires 0 <= i < |vs| => PrintRecord(vs[i]))
  }

  /** Lines as text, each with its newline. */
  function TextOf(lines: seq<string>): string {
    if lines == [] then "" else lines[0] + "\n" + TextOf(lines[1..])
  }

  function PrintFile(num: NumberText, ms: seq<Message>): string {
    TextOf(RecordLines(num, ms) + RecordTexts(Records(ms)))
  }

  // ----- what can be printed

  predicate OneLine(s: string) {
    '\n' !in s
  }

  ghost predicate PrintableEntry(num: NumberText, e: SignalEntry) {
    var sig := e.definition;
    && Printable(num, sig)
    && e.plan == Compile(sig)
    && sig.(isFloat := false) == ReadBack(sig)
    && (sig.isFloat ==> sig.length == 32 || sig.length == 64)
    && OneLine(sig.name) && OneLine(sig.unit)
    && OneLine(num.show(Finite(sig.scale))) && OneLine(num.show(Finite(sig.offset)))
    && OneLine(num.show(sig.minimum)) && OneLine(num.show(sig.maximum))
  }

  ghost predicate PrintableMessage(num: NumberText, m: Message) {
    && PrintableHeader(HeaderOf(m)) && OneLine(m.name)
    && forall j :: 0 <= j < |m.signals| ==> PrintableEntry(num, m.signals[j])
  }

  /** One-line texts and fields a line can hold. */
  ghost predicate PrintableMessages(num: NumberText, ms: seq<Message>) {
    forall i :: 0 <= i < |ms| ==> PrintableMessage(num, ms[i])
  }

  /** The record of this float reaches it, and reaches only floats in messages of the same identifier. */
  ghost predicate MarkAgrees(ms: seq<Message>, i: nat, j: nat)
    requires i < |ms| && j < |ms[i].signals|
  {
    var name := ms[i].signals[j].definition.name;
    && FirstNamed(ms[i].signals, name) == Some(j)
    && forall k :: 0 <= k < |ms| && ms[k].id == ms[i].id ==> FirstIsFloat(ms[k].signals, name)
  }

  predicate FirstIsFloat(signals: seq<SignalEntry>, name: string) {
    match FirstNamed(signals, name)
    case Some(b) => signals[b].definition.isFloat
    case None => true
  }

  ghost predicate MarksAgree(ms: seq<Message>) {
    forall i, j :: 0 <= i < |ms| && 0 <= j < |ms[i].signals| && ms[i].signals[j].definition.isFloat ==>
      MarkAgrees(ms, i, j)
  }

  /** In particular when identifiers and names are distinct. */
  lemma DistinctMarksAgree(ms: seq<Message>)
    requires forall i, k :: 0 <= i < k < |ms| ==> ms[i].id != ms[k].id
    requires forall i, a, b :: 0 <= i < |ms| && 0 <= a < b < |ms[i].signals| ==>
               ms[i].signals[a].definition.name != ms[i].signals[b].definition.name
    ensures MarksAgree(ms)
  {
    hide FirstNamed;
    forall i, j | 0 <= i < |ms| && 0 <= j < |ms[i].signals| && ms[i].signals[j].definition.isFloat
      ensures MarkAgrees(ms, i, j)
    {
      var first := FirstNamed(ms[i].signals, ms[i].signals[j].definition.name);
      assert first == Some(j);
      assert forall k :: 0 <= k < |ms| && ms[k].id == ms[i].id ==> k == i;
    }
  }

  // ----- text to lines

  function TrimAll(lines: seq<string>): seq<string> {
    seq(|lines|, i requires 0 <= i < |lines| => Trim(lines[i]))
  }

  lemma {:induction false} LinesOfText(lines: seq<string>)
    requires forall i :: 0 <= i < |lines| ==> OneLine(lines[i])
    ensures CleanLines(TextOf(lines)) == TrimAll(lines) + [""]
  {
    hide Trim, CleanLines;
    if lines == [] {
      LoneLineIsTrimmed("");
      TrimOfTight("");
      assert TrimAll(lines) + [""] == [Trim("")];
    } else {
      LinesOfText(lines[1..]);
      FirstLine(lines[0], TextOf(lines[1..]));
      assert TrimAll(lines) == [Trim(lines[0])] + TrimAll(lines[1..]);
    }
  }

  // ----- printed lines, cleaned

  lemma HeaderLineIsClean(m: Message)
    ensures var line := PrintHeader(HeaderOf(m), TRANSMITTER);
            Trim(line) == line && IsMessageLine(line) && (OneLine(m.name) ==> OneLine(line))
  {
    hide Decimal, RawOfId;
    var line := PrintHeader(HeaderOf(m), TRANSMITTER);
    assert line[0] == 'B' && line[|line| - 1] == 'X';
    TrimOfTight(line);
    DigitsOneLine(Decimal(RawOfId(m.id)));
    DigitsOneLine(Decimal(m.byteLength));
  }

  lemma DigitsOneLine(s: string)
    requires AllDigits(s)
    ensures OneLine(s)
  {
  }

  lemma SignalLineShape(num: NumberText, sig: Signal) returns (rest: string)
    ensures PrintSignal(num, sig, "") == "SG_ " + rest && rest != "" && rest[|rest| - 1] == '"'
  {
    hide MuxText, LayoutText, ScalingText, RangeText;
    var start := sig.name + MuxText(sig) + " : " + LayoutText(sig) + " " + ScalingText(num, sig) + " "
                 + RangeText(num, sig) + " \"" + sig.unit;
    rest := start + "\"";
    assert PrintSignal(num, sig, "") == "SG_ " + rest;
  }

  lemma SignalLineIsClean(num: NumberText, sig: Signal)
    ensures var line := PrintSignal(num, sig, "");
            Trim(" " + line) == line && IsSignalLine(line) && !IsMessageLine(line)
  {
    hide PrintSignal, Trim;
    var line := PrintSignal(num, sig, "");
    var rest := SignalLineShape(num, sig);
    assert line[0] == 'S' && line[|line| - 1] == '"';
    TrimOfIndented(' ', line);
    assert " " + line == [' '] + line;
  }

  lemma SignalLineIsOneLine(num: NumberText, e: SignalEntry)
    requires PrintableEntry(num, e)
    ensures OneLine(" " + PrintSignal(num, e.definition, ""))
  {
    hide Decimal, Printable, Compile, ReadBack;
    var sig := e.definition;
    DigitsOneLine(Decimal(sig.startBit));
    DigitsOneLine(Decimal(sig.length));
    DigitsOneLine(Decimal(sig.muxValue));
    assert OneLine(MuxText(sig));
    assert OneLine(LayoutText(sig));
    assert OneLine(ScalingText(num, sig));
    assert OneLine(RangeText(num, sig));
    SignalTextOneLine(num, sig);
  }

  lemma SignalTextOneLine(num: NumberText, sig: Signal)
    requires OneLine(sig.name) && OneLine(sig.unit) && OneLine(MuxText(sig)) && OneLine(LayoutText(sig))
    requires OneLine(ScalingText(num, sig)) && OneLine(RangeText(num, sig))
    ensures OneLine(" " + PrintSignal(num, sig, ""))
  {
    hide MuxText, LayoutText, ScalingText, RangeText;
  }

  lemma RecordLineIsClean(v: ValueType)
    ensures var line := PrintRecord(v);
            && Trim(line) == line && !IsMessageLine(line) && !IsSignalLine(line) && IsValueTypeLine(line)
            && (OneLine(v.signal) ==> OneLine(line))
  {
    hide Decimal;
    var line := PrintRecord(v);
    var rest := Decimal(v.rawId) + " " + v.signal + " : " + Decimal(v.kind) + ";";
    assert line == "SIG_VALTYPE_ " + rest;
    assert line[0] == 'S' && line[1] == 'I' && line[|line| - 1] == ';';
    TrimOfTight(line);
    DigitsOneLine(Decimal(v.rawId));
    DigitsOneLine(Decimal(v.kind));
  }

  lemma RecordReadsBack(v: ValueType)
    requires v.signal != "" && Blankless(v.signal) && v.kind != 0
    ensures ParseValueType(PrintRecord(v)) == Some(v)
  {
    hide Decimal, TakeToken, TakeUntil, AfterConsume, NextIs, ParseU32, Trim;
    var raw, kind := Decimal(v.rawId), Decimal(v.kind);
    var afterName := " " + [':'] + (" " + kind + [';'] + "");
    var afterId := " " + v.signal + afterName;
    assert PrintRecord(v) == "SIG_VALTYPE_" + (" " + raw + afterId);
    TokenOf("SIG_VALTYPE_", " " + raw + afterId);
    DigitsBlankless(raw);
    TokenOf(raw, afterId);
    TokenOf(v.signal, afterName);
    ConsumeOf(':', " " + kind + [';'] + "");
    DigitsLack(kind, ';');
    UntilOf(" " + kind, ';', "");
    KindReadsBack(v.kind);
    ParsePrinted(v.rawId);
  }

  lemma KindReadsBack(kind: u32)
    ensures ParseU32(Trim(" " + Decimal(kind))) == Some(kind)
  {
    hide Decimal, ParseU32, Trim;
    var digits := Decimal(kind);
    TrimOfIndented(' ', digits);
    assert " " + digits == [' '] + digits;
    ParsePrinted(kind);
  }

  // ----- grouping the printed lines

  function CleanRecords(num: NumberText, ms: seq<Message>): seq<string> {
    if ms == [] then []
    else [PrintHeader(HeaderOf(ms[0]), TRANSMITTER)] + SignalTexts(num, ms[0].signals) + CleanRecords(num, ms[1..])
  }

  lemma {:induction false} RecordLinesAreClean(num: NumberText, ms: seq<Message>)
    requires forall i :: 0 <= i < |ms| ==> PrintableMessage(num, ms[i])
    ensures TrimAll(RecordLines(num, ms)) == CleanRecords(num, ms)
    ensures forall i :: 0 <= i < |RecordLines(num, ms)| ==> OneLine(RecordLines(num, ms)[i])
  {
    hide Trim, PrintHeader, PrintSignal, PrintableEntry, OneLine;
    if ms != [] {
      var m := ms[0];
      RecordLinesAreClean(num, ms[1..]);
      assert PrintableMessage(num, m);
      HeaderLineIsClean(m);
      var texts := SignalTexts(num, m.signals);
      forall j | 0 <= j < |texts|
        ensures Trim(Indented(texts)[j]) == texts[j] && OneLine(Indented(texts)[j])
      {
        SignalLineIsClean(num, m.signals[j].definition);
        SignalLineIsOneLine(num, m.signals[j]);
      }
      assert TrimAll(Indented(texts)) == texts;
      var head := [PrintHeader(HeaderOf(m), TRANSMITTER)];
      TrimAllAppends(head, Indented(texts));
      TrimAllAppends(head + Indented(texts), RecordLines(num, ms[1..]));
      assert TrimAll(head) == head;
    }
  }

  lemma TrimAllAppends(a: seq<string>, b: seq<string>)
    ensures TrimAll(a + b) == TrimAll(a) + TrimAll(b)
  {
    hide Trim;
  }

  /** A message as its lines carry it, before any float mark. */
  function Unmarked(m: Message): Message {
    m.(signals := seq(|m.signals|, j requires 0 <= j < |m.signals| =>
         m.signals[j].(definition := m.signals[j].definition.(isFloat := false))))
  }

  function AllUnmarked(ms: seq<Message>): seq<Message> {
    seq(|ms|, i requires 0 <= i < |ms| => Unmarked(ms[i]))
  }

  lemma {:induction false} PrintedSignalsRead(num: NumberText, m: Message, signals: seq<SignalEntry>, tail: seq<string>)
    requires forall j :: 0 <= j < |signals| ==> PrintableEntry(num, signals[j])
    requires forall i :: 0 <= i < |tail| ==> !IsSignalLine(tail[i])
    ensures SignalsOf(num, SignalTexts(num, signals) + tail)
            == Ok(Unmarked(m.(signals := signals)).signals)
  {
    hide PrintSignal, ParseSignal, IsSignalLine, PrintableEntry, EntryOf, SignalTexts;
    var lines := SignalTexts(num, signals) + tail;
    if signals == [] {
      NoTexts(num);
      assert lines == tail;
      NoSignals(num, tail);
      assert Unmarked(m.(signals := [])).signals == [];
    } else {
      PrintedSignalsRead(num, m, signals[1..], tail);
      FirstText(num, signals);
      assert lines[0] == PrintSignal(num, signals[0].definition, "");
      assert lines[1..] == SignalTexts(num, signals[1..]) + tail;
      SignalLineIsClean(num, signals[0].definition);
      PrintedEntryReads(num, signals[0]);
      assert Unmarked(m.(signals := signals)).signals
          == [signals[0].(definition := signals[0].definition.(isFloat := false))]
             + Unmarked(m.(signals := signals[1..])).signals;
    }
  }

  lemma NoTexts(num: NumberText)
    ensures SignalTexts(num, []) == []
  {
  }

  lemma FirstText(num: NumberText, signals: seq<SignalEntry>)
    requires signals != []
    ensures SignalTexts(num, signals)
            == [PrintSignal(num, signals[0].definition, "")] + SignalTexts(num, signals[1..])
  {
    hide PrintSignal;
  }

  lemma PrintedEntryReads(num: NumberText, e: SignalEntry)
    requires PrintableEntry(num, e)
    ensures var read := ParseSignal(num, PrintSignal(num, e.definition, ""));
            read.Ok? && EntryOf(read.value) == e.(definition := e.definition.(isFloat := false))
  {
    hide PrintSignal, ParseSignal, Compile, ReadBack, OneLine;
    SignalRoundTrip(num, e.definition, "");
    CompileIgnoresFloat(e.definition, false);
  }

  lemma {:induction false} NoSignals(num: NumberText, lines: seq<string>)
    requires forall i :: 0 <= i < |lines| ==> !IsSignalLine(lines[i])
    ensures SignalsOf(num, lines) == Ok([])
  {
    hide ParseSignal, IsSignalLine;
    if lines != [] { NoSignals(num, lines[1..]); }
  }

  lemma {:induction false} BodyOfPlain(a: seq<string>, b: seq<string>)
    requires forall i :: 0 <= i < |a| ==> !IsMessageLine(a[i])
    ensures Body(a + b) == a + Body(b)
  {
    hide IsMessageLine;
    if a == [] {
      assert a + b == b;
    } else {
      assert (a + b)[1..] == a[1..] + b;
      BodyOfPlain(a[1..], b);
    }
  }

  lemma {:induction false} GroupsAfterBody(num: NumberText, lines: seq<string>)
    ensures Groups(num, lines[|Body(lines)|..]) == Groups(num, lines)
  {
    hide ParseMessage, SignalsOf, IsMessageLine;
    if lines != [] && !IsMessageLine(lines[0]) {
      GroupsAfterBody(num, lines[1..]);
      assert lines[|Body(lines)|..] == lines[1..][|Body(lines[1..])|..];
    }
  }

  /** The printed records of some messages, followed by other lines, group to the messages unmarked. */
  lemma {:induction false} PrintedRecordsGroup(num: NumberText, ms: seq<Message>, tail: seq<string>)
    requires forall i :: 0 <= i < |ms| ==> PrintableMessage(num, ms[i])
    requires forall i :: 0 <= i < |tail| ==> !IsMessageLine(tail[i]) && !IsSignalLine(tail[i])
    ensures Groups(num, CleanRecords(num, ms) + tail) == Ok(AllUnmarked(ms))
  {
    hide PrintHeader, PrintSignal, ParseMessage, SignalsOf, IsMessageLine, IsSignalLine, PrintableEntry, Unmarked;
    hide PrintableHeader, OneLine, Groups, Body, HeaderOf, SignalTexts;
    var lines := CleanRecords(num, ms) + tail;
    if ms == [] {
      assert lines == tail;
      NoGroups(num, tail);
    } else {
      var m := ms[0];
      var rest := CleanRecords(num, ms[1..]) + tail;
      var texts := SignalTexts(num, m.signals);
      PrintedRecordsGroup(num, ms[1..], tail);
      assert PrintableMessage(num, m);
      assert lines[0] == PrintHeader(HeaderOf(m), TRANSMITTER);
      assert lines[1..] == texts + rest;
      HeaderLineIsClean(m);
      HeaderRoundTrip(HeaderOf(m), TRANSMITTER);
      TextsAreNoHeaders(num, m.signals);
      BodyOfPlain(texts, rest);
      BodyHasNoSignals(num, ms[1..], tail);
      PrintedSignalsRead(num, m, m.signals, Body(rest));
      GroupsAfterBody(num, rest);
      assert lines[1 + |texts + Body(rest)|..] == rest[|Body(rest)|..];
      assert m.(signals := m.signals) == m;
      AssembleGroup(num, lines, m, AllUnmarked(ms[1..]));
      assert AllUnmarked(ms) == [Unmarked(m)] + AllUnmarked(ms[1..]);
    }
  }

  lemma TextsAreNoHeaders(num: NumberText, signals: seq<SignalEntry>)
    ensures forall j :: 0 <= j < |SignalTexts(num, signals)| ==> !IsMessageLine(SignalTexts(num, signals)[j])
  {
    hide PrintSignal, IsMessageLine;
    forall j | 0 <= j < |signals|
      ensures !IsMessageLine(SignalTexts(num, signals)[j])
    {
      SignalLineIsClean(num, signals[j].definition);
    }
  }

  lemma AssembleGroup(num: NumberText, lines: seq<string>, m: Message, others: seq<Message>)
    requires lines != [] && IsMessageLine(lines[0])
    requires ParseMessage(lines[0]) == Ok(HeaderOf(m))
    requires SignalsOf(num, Body(lines[1..])) == Ok(Unmarked(m).signals)
    requires Groups(num, lines[1 + |Body(lines[1..])|..]) == Ok(others)
    ensures Groups(num, lines) == Ok([Unmarked(m)] + others)
  {
    hide ParseMessage, SignalsOf, IsMessageLine;
    assert EmptyMessage(HeaderOf(m)).(signals := Unmarked(m).signals) == Unmarked(m);
  }

  lemma {:induction false} NoGroups(num: NumberText, lines: seq<string>)
    requires forall i :: 0 <= i < |lines| ==> !IsMessageLine(lines[i])
    ensures Groups(num, lines) == Ok([])
  {
    hide ParseMessage, SignalsOf, IsMessageLine;
    if lines != [] { NoGroups(num, lines[1..]); }
  }

  /** Right after one message come the next message's header or the closing lines. */
  lemma BodyHasNoSignals(num: NumberText, ms: seq<Message>, tail: seq<string>)
    requires forall i :: 0 <= i < |tail| ==> !IsMessageLine(tail[i]) && !IsSignalLine(tail[i])
    ensures var body := Body(CleanRecords(num, ms) + tail);
            forall i :: 0 <= i < |body| ==> !IsSignalLine(body[i])
  {
    hide PrintHeader, PrintSignal, IsMessageLine, IsSignalLine;
    if ms == [] {
      assert CleanRecords(num, ms) + tail == tail;
      BodyOfPlain(tail, []);
      assert tail + [] == tail;
    } else {
      HeaderLineIsClean(ms[0]);
    }
  }

  // ----- collecting the printed float records

  lemma {:induction false} NoValueTypes(lines: seq<string>)
    requires forall i :: 0 <= i < |lines| ==> ValueTypeIn(lines[i]) == None
    ensures ValueTypes(lines) == []
  {
    hide ValueTypeIn;
    if lines != [] { NoValueTypes(lines[1..]); }
  }

  lemma {:induction false} RecordsHaveNoValueTypes(num: NumberText, ms: seq<Message>)
    ensures ValueTypes(CleanRecords(num, ms)) == []
  {
    hide PrintHeader, PrintSignal, ValueTypeIn, ValueTypes;
    if ms == [] {
      NoValueTypes([]);
    } else {
      RecordsHaveNoValueTypes(num, ms[1..]);
      var own := [PrintHeader(HeaderOf(ms[0]), TRANSMITTER)] + SignalTexts(num, ms[0].signals);
      HeaderLineIsClean(ms[0]);
      NoValueType(own[0]);
      forall i | 0 <= i < |own|
        ensures ValueTypeIn(own[i]) == None
      {
        if i > 0 {
          SignalLineIsClean(num, ms[0].signals[i - 1].definition);
          NoValueType(own[i]);
        }
      }
      NoValueTypes(own);
      ValueTypesOfJoin(own, CleanRecords(num, ms[1..]));
    }
  }

  lemma {:induction false} PrintedRecordsRead(vs: seq<ValueType>)
    requires forall i :: 0 <= i < |vs| ==> vs[i].signal != "" && Blankless(vs[i].signal) && vs[i].kind != 0
    ensures ValueTypes(RecordTexts(vs)) == vs
  {
    hide PrintRecord, ParseValueType, Blankless, IsMessageLine, IsSignalLine, IsValueTypeLine;
    if vs != [] {
      PrintedRecordsRead(vs[1..]);
      RecordLineIsClean(vs[0]);
      RecordReadsBack(vs[0]);
      assert RecordTexts(vs)[1..] == RecordTexts(vs[1..]);
    }
  }

  // ----- marking the parsed messages

  /** v is the record of some float signal of the messages. */
  ghost predicate IsRecord(ms: seq<Message>, v: ValueType) {
    exists i, j :: 0 <= i < |ms| && 0 <= j < |ms[i].signals| && ms[i].signals[j].definition.isFloat
                   && v == RecordOf(ms[i], ms[i].signals[j])
  }

  lemma {:induction false} FloatRecordsAre(m: Message, signals: seq<SignalEntry>, v: ValueType)
    ensures v in FloatRecords(m, signals)
            <==> exists j :: 0 <= j < |signals| && signals[j].definition.isFloat && v == RecordOf(m, signals[j])
  {
    hide RecordOf;
    if signals != [] {
      FloatRecordsAre(m, signals[1..], v);
      assert forall j :: 1 <= j < |signals| ==> signals[j] == signals[1..][j - 1];
      assert forall j :: 0 <= j < |signals| - 1 ==> signals[j + 1] == signals[1..][j];
    }
  }

  lemma {:induction false} RecordsAre(ms: seq<Message>, v: ValueType)
    ensures v in Records(ms) <==> IsRecord(ms, v)
  {
    hide RecordOf, FloatRecords;
    if ms != [] {
      RecordsAre(ms[1..], v);
      FloatRecordsAre(ms[0], ms[0].signals, v);
      if IsRecord(ms[1..], v) {
        var i, j :| 0 <= i < |ms[1..]| && 0 <= j < |ms[1..][i].signals| && ms[1..][i].signals[j].definition.isFloat
                    && v == RecordOf(ms[1..][i], ms[1..][i].signals[j]);
        assert ms[i + 1] == ms[1..][i];
      }
      if IsRecord(ms, v) {
        var i, j :| 0 <= i < |ms| && 0 <= j < |ms[i].signals| && ms[i].signals[j].definition.isFloat
                    && v == RecordOf(ms[i], ms[i].signals[j]);
        if i > 0 { assert ms[1..][i - 1] == ms[i]; }
      }
    }
  }

  /** A record names the messages of its identifier, and finds in them what the unmarked ones have. */
  lemma RecordNamesItsId(num: NumberText, ms: seq<Message>, i: nat, j: nat, k: nat)
    requires PrintableMessages(num, ms)
    requires i < |ms| && j < |ms[i].signals| && k < |ms|
    ensures var v := RecordOf(ms[i], ms[i].signals[j]);
            && (Names(v, Unmarked(ms[k])) <==> ms[k].id == ms[i].id)
            && FirstNamed(Unmarked(ms[k]).signals, v.signal) == FirstNamed(ms[k].signals, v.signal)
  {
    hide PrintableEntry, OneLine, FirstNamed, PlainId;
    assert PrintableMessage(num, ms[i]) && PrintableMessage(num, ms[k]);
    assert PrintableHeader(HeaderOf(ms[i])) && PrintableHeader(HeaderOf(ms[k]));
    SameIdFromRaw(ms[i].id, ms[k].id);
    SameFirstNamed(Unmarked(ms[k]).signals, ms[k].signals, ms[i].signals[j].definition.name);
  }

  lemma SameIdFromRaw(a: CanId, b: CanId)
    requires PlainId(a) && PlainId(b)
    ensures (b.Extended() <==> RawOfId(a) >= EXTENDED_FLAG) && b.Identifier() == RawOfId(a) % EXTENDED_FLAG <==> a == b
  {
    PlainRaw(a);
    PlainRaw(b);
    IdentifierBelowFlag(a);
    IdentifierBelowFlag(b);
  }

  lemma IdentifierBelowFlag(a: CanId)
    ensures a.Identifier() < EXTENDED_FLAG
    ensures RawOfId(a) % EXTENDED_FLAG == a.Identifier() && (RawOfId(a) >= EXTENDED_FLAG <==> a.Extended())
  {
  }

  /** Marking the unmarked messages by their own records restores them. */
  lemma MarkingRestores(num: NumberText, ms: seq<Message>)
    requires PrintableMessages(num, ms) && MarksAgree(ms)
    ensures MarkFloats(AllUnmarked(ms), Records(ms)) == Ok(ms)
  {
    hide PrintableMessages, MarksAgree, FirstNamed, Names, Records, Unmarked, Misplaced, RecordOf;
    var plain, vs := AllUnmarked(ms), Records(ms);
    forall v, m | v in vs && m in plain
      ensures !Misplaced(v, m)
    {
      RecordsAre(ms, v);
      var i, j :| 0 <= i < |ms| && 0 <= j < |ms[i].signals| && ms[i].signals[j].definition.isFloat
                  && v == RecordOf(ms[i], ms[i].signals[j]);
      var k :| 0 <= k < |ms| && m == Unmarked(ms[k]);
      RecordIsPlaced(num, ms, i, j, k);
    }
    forall k | 0 <= k < |ms|
      ensures Marked(plain[k], vs) == ms[k]
    {
      MarkingRestoresMessage(num, ms, k);
    }
    assert !AnyMisplaced(plain, vs);
    assert seq(|plain|, k requires 0 <= k < |plain| => Marked(plain[k], vs)) == ms;
  }

  /** The record of a float reaches nothing but floats, which are wide enough. */
  lemma RecordReachesFloats(num: NumberText, ms: seq<Message>, i: nat, j: nat, k: nat)
    requires PrintableMessages(num, ms) && MarksAgree(ms)
    requires i < |ms| && j < |ms[i].signals| && ms[i].signals[j].definition.isFloat && k < |ms|
    ensures var v := RecordOf(ms[i], ms[i].signals[j]);
            var first := FirstNamed(Unmarked(ms[k]).signals, v.signal);
            Names(v, Unmarked(ms[k])) && first.Some? ==> ms[k].signals[first.value].definition.isFloat
  {
    hide PrintableMessages, FirstNamed, Names;
    RecordNamesItsId(num, ms, i, j, k);
    assert MarkAgrees(ms, i, j);
    if ms[k].id == ms[i].id {
      assert FirstIsFloat(ms[k].signals, ms[i].signals[j].definition.name);
    }
  }

  lemma RecordIsPlaced(num: NumberText, ms: seq<Message>, i: nat, j: nat, k: nat)
    requires PrintableMessages(num, ms) && MarksAgree(ms)
    requires i < |ms| && j < |ms[i].signals| && ms[i].signals[j].definition.isFloat && k < |ms|
    ensures !Misplaced(RecordOf(ms[i], ms[i].signals[j]), Unmarked(ms[k]))
  {
    hide PrintableMessages, MarksAgree, FirstNamed, Names, FloatWidth;
    var v, m := RecordOf(ms[i], ms[i].signals[j]), Unmarked(ms[k]);
    RecordReachesFloats(num, ms, i, j, k);
    if Names(v, m) && FirstNamed(m.signals, v.signal).Some? {
      FloatsAreWide(num, ms, k, FirstNamed(m.signals, v.signal).value);
    }
  }

  lemma FloatsAreWide(num: NumberText, ms: seq<Message>, i: nat, j: nat)
    requires PrintableMessages(num, ms) && i < |ms| && j < |ms[i].signals| && ms[i].signals[j].definition.isFloat
    ensures FloatWidth(Unmarked(ms[i]).signals[j].definition)
  {
    hide Printable, Compile, ReadBack, OneLine, PrintableHeader;
    assert PrintableMessage(num, ms[i]);
    assert PrintableEntry(num, ms[i].signals[j]);
  }

  lemma MarkingRestoresMessage(num: NumberText, ms: seq<Message>, k: nat)
    requires PrintableMessages(num, ms) && MarksAgree(ms) && k < |ms|
    ensures Marked(Unmarked(ms[k]), Records(ms)) == ms[k]
  {
    hide PrintableMessages, MarksAgree, FirstNamed, Names, Records, RecordOf, Marks;
    var plain, vs := Unmarked(ms[k]), Records(ms);
    forall j | 0 <= j < |plain.signals|
      ensures MarkedEntry(plain, vs, j) == ms[k].signals[j]
    {
      if ms[k].signals[j].definition.isFloat {
        RecordsAre(ms, RecordOf(ms[k], ms[k].signals[j]));
        RecordMarksItsSignal(num, ms, k, j);
      } else {
        forall v | v in vs
          ensures !Marks(v, plain, j)
        {
          RecordsAre(ms, v);
          var a, b :| 0 <= a < |ms| && 0 <= b < |ms[a].signals| && ms[a].signals[b].definition.isFloat
                      && v == RecordOf(ms[a], ms[a].signals[b]);
          RecordSparesOthers(num, ms, a, b, k, j);
        }
      }
    }
    assert Marked(plain, vs).signals == ms[k].signals;
  }

  lemma RecordMarksItsSignal(num: NumberText, ms: seq<Message>, k: nat, j: nat)
    requires PrintableMessages(num, ms) && MarksAgree(ms)
    requires k < |ms| && j < |ms[k].signals| && ms[k].signals[j].definition.isFloat
    ensures Marks(RecordOf(ms[k], ms[k].signals[j]), Unmarked(ms[k]), j)
  {
    hide PrintableMessages, FirstNamed, Names, Unmarked;
    RecordNamesItsId(num, ms, k, j, k);
    assert MarkAgrees(ms, k, j);
  }

  lemma RecordSparesOthers(num: NumberText, ms: seq<Message>, a: nat, b: nat, k: nat, j: nat)
    requires PrintableMessages(num, ms) && MarksAgree(ms)
    requires a < |ms| && b < |ms[a].signals| && ms[a].signals[b].definition.isFloat
    requires k < |ms| && j < |ms[k].signals| && !ms[k].signals[j].definition.isFloat
    ensures !Marks(RecordOf(ms[a], ms[a].signals[b]), Unmarked(ms[k]), j)
  {
    hide PrintableMessages, MarksAgree, FirstNamed, Names, Unmarked;
    RecordReachesFloats(num, ms, a, b, k);
  }

  // ----- the theorem

  /** Every record of a printable file has a printable name. */
  lemma RecordNames(num: NumberText, ms: seq<Message>, v: ValueType)
    requires PrintableMessages(num, ms) && v in Records(ms)
    ensures v.signal != "" && Blankless(v.signal) && v.kind != 0 && OneLine(v.signal)
  {
    hide Records, Compile, ReadBack, PrintableHeader;
    RecordsAre(ms, v);
    var i, j :| 0 <= i < |ms| && 0 <= j < |ms[i].signals| && ms[i].signals[j].definition.isFloat
                && v == RecordOf(ms[i], ms[i].signals[j]);
    assert PrintableMessage(num, ms[i]);
    assert PrintableEntry(num, ms[i].signals[j]);
  }

  /** Printing a database as DBC text and parsing the text gives the database back. */
  lemma FileRoundTrip(num: NumberText, ms: seq<Message>)
    requires PrintableMessages(num, ms) && MarksAgree(ms)
    ensures ParseFile(num, PrintFile(num, ms)) == Ok(ms)
  {
    hide RecordLines, CleanRecords, Records, RecordTexts, Groups, ValueTypes, MarkFloats, TextOf, TrimAll, CleanLines;
    hide PrintableMessage, MarksAgree, Trim, PrintRecord, IsMessageLine, IsSignalLine, ValueTypeIn;
    var vs := Records(ms);
    var lines, texts := RecordLines(num, ms), RecordTexts(vs);
    RecordLinesAreClean(num, ms);
    RecordTextsAreClean(num, ms);
    TrimAllAppends(lines, texts);
    LinesOfText(lines + texts);
    var clean := CleanRecords(num, ms);
    var tail := texts + [""];
    assert CleanLines(PrintFile(num, ms)) == clean + tail;
    assert tail[|texts|] == "";
    EmptyLine();
    PrintedRecordsGroup(num, ms, tail);
    RecordsHaveNoValueTypes(num, ms);
    ValueTypesOfJoin(clean, tail);
    ValueTypesOfJoin(texts, [""]);
    NoValueTypes([""]);
    forall i | 0 <= i < |vs|
      ensures vs[i].signal != "" && Blankless(vs[i].signal) && vs[i].kind != 0
    {
      RecordNames(num, ms, vs[i]);
    }
    PrintedRecordsRead(vs);
    assert ValueTypes(clean + tail) == vs;
    MarkingRestores(num, ms);
  }

  lemma EmptyLine()
    ensures !IsMessageLine("") && !IsSignalLine("") && ValueTypeIn("") == None
  {
  }

  lemma RecordTextsAreClean(num: NumberText, ms: seq<Message>)
    requires PrintableMessages(num, ms)
    ensures var texts := RecordTexts(Records(ms));
            && TrimAll(texts) == texts
            && forall i :: 0 <= i < |texts| ==> OneLine(texts[i]) && !IsMessageLine(texts[i]) && !IsSignalLine(texts[i])
  {
    hide Records, PrintableMessages, Trim, PrintRecord, IsMessageLine, IsSignalLine, OneLine;
    var vs := Records(ms);
    forall i | 0 <= i < |vs|
      ensures Trim(RecordTexts(vs)[i]) == RecordTexts(vs)[i] && OneLine(RecordTexts(vs)[i])
      ensures !IsMessageLine(RecordTexts(vs)[i]) && !IsSignalLine(RecordTexts(vs)[i])
    {
      RecordNames(num, ms, vs[i]);
      RecordLineIsClean(vs[i]);
    }
  }
}
