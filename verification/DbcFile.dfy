/** Parsing a whole DBC file: the line loop and the float-marking pass. */
module DbcFile {
  import opened Words
  import opened CanTypes
  import opened Packing
  import opened Signals
  import opened DbcText
  import opened DbcRecords

  /** A signal with the plan compiled from it when it was added. */
  datatype SignalEntry = SignalEntry(definition: Signal, plan: Plan)

  datatype Message = Message(id: CanId, name: string, byteLength: u8, signals: seq<SignalEntry>)

  function EntryOf(sig: Signal): SignalEntry
    requires sig.Valid()
  {
    SignalEntry(sig, Compile(sig))
  }

  function EmptyMessage(h: Header): Message {
    Message(h.id, h.name, h.byteLength, [])
  }

  // ----- what a file means

  /** The lines of a text, trimmed; a text with n newlines has n + 1 of them. */
  function CleanLines(text: string): seq<string>
    decreases |text|
  {
    var n := LengthUntil(text, '\n');
    if n == |text| then [Trim(text)] else [Trim(text[..n])] + CleanLines(text[n + 1..])
  }

  predicate IsMessageLine(line: string) { "BO_ " <= line }
  predicate IsSignalLine(line: string) { "SG_ " <= line }
  predicate IsValueTypeLine(line: string) { "SIG_VALTYPE_ " <= line }

  /** The lines up to the next message line. */
  function Body(lines: seq<string>): (body: seq<string>)
    ensures |body| <= |lines| && body == lines[..|body|]
    ensures forall i :: 0 <= i < |body| ==> !IsMessageLine(body[i])
    ensures |body| < |lines| ==> IsMessageLine(lines[|body|])
  {
    if lines == [] || IsMessageLine(lines[0]) then [] else [lines[0]] + Body(lines[1..])
  }

  /** The signals of the signal lines, in order; other lines carry none. */
  function SignalsOf(num: NumberText, lines: seq<string>): Result<seq<SignalEntry>> {
    if lines == [] then Ok([])
    else if !IsSignalLine(lines[0]) then SignalsOf(num, lines[1..])
    else
      match (ParseSignal(num, lines[0]), SignalsOf(num, lines[1..]))
      case (Ok(sig), Ok(rest)) => Ok([EntryOf(sig)] + rest)
      case _ => Err(ParseError)
  }

  /** One message per message line, holding the signal lines that follow it. */
  function Groups(num: NumberText, lines: seq<string>): Result<seq<Message>>
    decreases |lines|
  {
    if lines == [] then Ok([])
    else if !IsMessageLine(lines[0]) then Groups(num, lines[1..])
    else
      var body := Body(lines[1..]);
      match (ParseMessage(lines[0]), SignalsOf(num, body), Groups(num, lines[1 + |body|..]))
      case (Ok(h), Ok(entries), Ok(rest)) => Ok([EmptyMessage(h).(signals := entries)] + rest)
      case _ => Err(ParseError)
  }

  /** A SIG_VALTYPE_ record: this signal of this message is a float. */
  datatype ValueType = ValueType(rawId: u32, signal: string, kind: u32)

  /** "SIG_VALTYPE_ <msgid> <signal> : <kind>;"; anything else, or kind 0, is no record. */
  function ParseValueType(line: string): Option<ValueType> {
    var keyword := TakeToken(line);
    var id := TakeToken(keyword.rest);
    var name := TakeToken(id.rest);
    var kind := TakeUntil(AfterConsume(name.rest, ':'), ';');
    match (ParseU32(id.text), ParseU32(Trim(kind.text)))
    case (Some(raw), Some(k)) => if NextIs(name.rest, ':') && k != 0 then Some(ValueType(raw, name.text, k)) else None
    case _ => None
  }

  function ValueTypeIn(line: string): Option<ValueType> {
    if IsMessageLine(line) || IsSignalLine(line) || !IsValueTypeLine(line) then None else ParseValueType(line)
  }

  function ValueTypes(lines: seq<string>): seq<ValueType> {
    if lines == [] then []
    else
      match ValueTypeIn(lines[0])
      case Some(v) => [v] + ValueTypes(lines[1..])
      case None => ValueTypes(lines[1..])
  }

  /** The record names this message. */
  predicate Names(v: ValueType, m: Message) {
    (m.id.Extended() <==> v.rawId >= EXTENDED_FLAG) && m.id.Identifier() == v.rawId % EXTENDED_FLAG
  }

  /** The index of the first signal with a name. */
  function FirstNamed(signals: seq<SignalEntry>, name: string): (j: Option<nat>)
    ensures j.Some? ==> j.value < |signals| && signals[j.value].definition.name == name
    ensures j.Some? ==> forall i :: 0 <= i < j.value ==> signals[i].definition.name != name
    ensures j.None? ==> forall i :: 0 <= i < |signals| ==> signals[i].definition.name != name
  {
    if signals == [] then None
    else if signals[0].definition.name == name then Some(0)
    else
      match FirstNamed(signals[1..], name)
      case Some(j) => Some(j + 1)
      case None => None
  }

  /** The record marks signal j of this message. */
  predicate Marks(v: ValueType, m: Message, j: nat) {
    Names(v, m) && FirstNamed(m.signals, v.signal) == Some(j)
  }

  predicate FloatWidth(sig: Signal) {
    sig.length == 32 || sig.length == 64
  }

  /** The record marks a signal that cannot be a float. */
  predicate Misplaced(v: ValueType, m: Message) {
    Names(v, m)
    && FirstNamed(m.signals, v.signal).Some?
    && !FloatWidth(m.signals[FirstNamed(m.signals, v.signal).value].definition)
  }

  function MarkedEntry(m: Message, vs: seq<ValueType>, j: nat): SignalEntry
    requires j < |m.signals|
  {
    var e := m.signals[j];
    e.(definition := e.definition.(isFloat := e.definition.isFloat || exists v :: v in vs && Marks(v, m, j)))
  }

  function Marked(m: Message, vs: seq<ValueType>): (r: Message)
    ensures |r.signals| == |m.signals|
  {
    m.(signals := seq(|m.signals|, j requires 0 <= j < |m.signals| => MarkedEntry(m, vs, j)))
  }

  predicate AnyMisplaced(ms: seq<Message>, vs: seq<ValueType>) {
    exists v, m :: v in vs && m in ms && Misplaced(v, m)
  }

  /** The messages with every named signal marked as a float. */
  function MarkFloats(ms: seq<Message>, vs: seq<ValueType>): Result<seq<Message>> {
    if AnyMisplaced(ms, vs) then Err(ParseError)
    else Ok(seq(|ms|, i requires 0 <= i < |ms| => Marked(ms[i], vs)))
  }

  function ParseFile(num: NumberText, text: string): Result<seq<Message>> {
    match Groups(num, CleanLines(text))
    case Err(_) => Err(ParseError)
    case Ok(ms) => MarkFloats(ms, ValueTypes(CleanLines(text)))
  }

  // ----- the line loop

  function Prefixed(done: seq<Message>, r: Result<seq<Message>>): Result<seq<Message>> {
    match r
    case Ok(ms) => Ok(done + ms)
    case Err(e) => Err(ParseError)
  }

  /** What the loop will return from here: messages done, one being filled, lines to go. */
  function Resume(num: NumberText, done: seq<Message>, current: Option<Message>, lines: seq<string>)
    : Result<seq<Message>>
  {
    match current
    case None => Prefixed(done, Groups(num, lines))
    case Some(m) =>
      match SignalsOf(num, Body(lines))
      case Err(_) => Err(ParseError)
      case Ok(entries) =>
        Prefixed(done + [m.(signals := m.signals + entries)], Groups(num, lines[|Body(lines)|..]))
  }

  function Flushed(done: seq<Message>, current: Option<Message>): seq<Message> {
    if current.Some? then done + [current.value] else done
  }

  lemma ResumeAtMessage(num: NumberText, done: seq<Message>, current: Option<Message>, lines: seq<string>)
    requires lines != [] && IsMessageLine(lines[0])
    ensures Resume(num, done, current, lines)
            == match ParseMessage(lines[0])
               case Err(_) => Err(ParseError)
               case Ok(h) => Resume(num, Flushed(done, current), Some(EmptyMessage(h)), lines[1..])
  {
    hide ParseMessage, ParseSignal;
    var body := Body(lines[1..]);
    assert Body(lines) == [] && lines[0..] == lines;
    assert lines[1..][|body|..] == lines[1 + |body|..];
    if current.Some? {
      assert current.value.(signals := current.value.signals + []) == current.value;
    }
    if ParseMessage(lines[0]).Ok? && SignalsOf(num, body).Ok? && Groups(num, lines[1 + |body|..]).Ok? {
      var m := EmptyMessage(ParseMessage(lines[0]).value);
      var entries, rest := SignalsOf(num, body).value, Groups(num, lines[1 + |body|..]).value;
      assert m.signals + entries == entries;
      assert Flushed(done, current) + ([m.(signals := entries)] + rest)
          == (Flushed(done, current) + [m.(signals := entries)]) + rest;
      if current.Some? {
        assert (done + [current.value]) + ([m.(signals := entries)] + rest)
            == Flushed(done, current) + ([m.(signals := entries)] + rest);
      }
    }
  }

  lemma ResumeAtSignal(num: NumberText, done: seq<Message>, m: Message, lines: seq<string>)
    requires lines != [] && IsSignalLine(lines[0]) && !IsMessageLine(lines[0])
    ensures Resume(num, done, Some(m), lines)
            == match ParseSignal(num, lines[0])
               case Err(_) => Err(ParseError)
               case Ok(sig) => Resume(num, done, Some(m.(signals := m.signals + [EntryOf(sig)])), lines[1..])
  {
    hide ParseSignal, EntryOf;
    var rest := Body(lines[1..]);
    assert Body(lines) == [lines[0]] + rest && Body(lines)[1..] == rest;
    assert lines[|Body(lines)|..] == lines[1..][|rest|..];
    if ParseSignal(num, lines[0]).Ok? && SignalsOf(num, rest).Ok? {
      var e, es := EntryOf(ParseSignal(num, lines[0]).value), SignalsOf(num, rest).value;
      assert m.signals + ([e] + es) == (m.signals + [e]) + es;
    }
  }

  lemma ResumeAtOther(num: NumberText, done: seq<Message>, current: Option<Message>, lines: seq<string>)
    requires lines != [] && !IsMessageLine(lines[0])
    requires !IsSignalLine(lines[0]) || current.None?
    ensures Resume(num, done, current, lines) == Resume(num, done, current, lines[1..])
  {
    hide ParseSignal;
    var rest := Body(lines[1..]);
    assert Body(lines) == [lines[0]] + rest && Body(lines)[1..] == rest;
    assert lines[|Body(lines)|..] == lines[1..][|rest|..];
  }

  lemma ResumeAtEnd(num: NumberText, done: seq<Message>, current: Option<Message>)
    ensures Resume(num, done, current, []) == Ok(Flushed(done, current))
  {
    assert Groups(num, []) == Ok([]);
    assert done + [] == done;
    if current.Some? {
      assert Body([]) == [];
      assert current.value.(signals := current.value.signals + []) == current.value;
      assert (done + [current.value]) + [] == done + [current.value];
    }
  }

  method ParseDbc(num: NumberText, text: string) returns (r: Result<seq<Message>>)
    ensures r == ParseFile(num, text)
  {
    hide ParseSignal, ParseMessage, ValueTypeIn, ValueTypes, Resume, Groups, SignalsOf, MarkFloats;
    hide CleanLines, Trim, LengthUntil, EntryOf, IsMessageLine, IsSignalLine, IsValueTypeLine;
    ghost var all := CleanLines(text);
    ghost var ahead := all;
    ResumeAtStart(num, all);
    var messages: seq<Message> := [];
    var current: Option<Message> := None;
    var valueTypes: seq<ValueType> := [];
    var pos := 0;
    assert text[0..] == text;
    while pos <= |text|
      invariant pos <= |text| + 1
      invariant ahead == if pos <= |text| then CleanLines(text[pos..]) else []
      invariant Resume(num, messages, current, ahead) == Prefixed([], Groups(num, all))
      invariant valueTypes + ValueTypes(ahead) == ValueTypes(all)
    {
      var newline := pos + LengthUntil(text[pos..], '\n');
      var line := DbcTrim(text[pos..newline]);
      NextLine(text, pos);
      assert ahead[0] == line;
      ValueTypesStep(valueTypes, ahead);
      pos := newline + 1;

      if IsMessageLine(line) {
        ResumeAtMessage(num, messages, current, ahead);
        if current.Some? {
          messages := messages + [current.value];
        }
        var parsed := DbcParseMessage(line);
        if parsed.Err? {
          return Err(ParseError);
        }
        current := Some(EmptyMessage(parsed.value));
        NoValueType(line);
      } else if IsSignalLine(line) {
        NoValueType(line);
        if current.None? {
          ResumeAtOther(num, messages, current, ahead);
          ahead := ahead[1..];
          continue;
        }
        ResumeAtSignal(num, messages, current.value, ahead);
        var parsed := DbcParseSignal(num, line);
        if parsed.Err? {
          return Err(ParseError);
        }
        current := Some(current.value.(signals := current.value.signals + [EntryOf(parsed.value)]));
      } else {
        ResumeAtOther(num, messages, current, ahead);
        if IsValueTypeLine(line) {
          var record := DbcParseValueType(line);
          if record.Some? {
            valueTypes := valueTypes + [record.value];
          }
        }
        ValueTypeOfOther(line);
      }
      ahead := ahead[1..];
    }
    ResumeAtEnd(num, messages, current);
    NoMoreValueTypes(valueTypes);
    if current.Some? {
      messages := messages + [current.value];
    }
    assert valueTypes == ValueTypes(all);
    assert Groups(num, all).Ok? && [] + Groups(num, all).value == Groups(num, all).value == messages;
    r := MarkFloatSignals(messages, valueTypes);
  }

  /** Taking the record of the next line over to the list collected so far. */
  lemma ValueTypesStep(vs: seq<ValueType>, lines: seq<string>)
    requires lines != []
    ensures vs + ValueTypes(lines)
            == (match ValueTypeIn(lines[0]) case Some(v) => vs + [v] case None => vs) + ValueTypes(lines[1..])
  {
    hide ValueTypeIn;
    match ValueTypeIn(lines[0])
    case Some(v) =>
      assert vs + ([v] + ValueTypes(lines[1..])) == (vs + [v]) + ValueTypes(lines[1..]);
    case None =>
  }

  lemma NoMoreValueTypes(vs: seq<ValueType>)
    ensures vs + ValueTypes([]) == vs
  {
  }

  method DbcParseValueType(line: string) returns (r: Option<ValueType>)
    ensures r == ParseValueType(line)
  {
    hide TakeToken, TakeUntil, AfterConsume, NextIs, ParseU32, Trim;
    var scanner := new DbcScanner(line);
    var keyword := scanner.Token();
    var messageId := scanner.Token();
    var signalName := scanner.Token();
    var rawId := ParseU32(messageId);
    var colon := scanner.Consume(':');
    if colon && rawId.Some? {
      var kindText := scanner.Until(';');
      var kindTrimmed := DbcTrim(kindText);
      var kind := ParseU32(kindTrimmed);
      if kind.Some? && kind.value != 0 {
        return Some(ValueType(rawId.value, signalName, kind.value));
      }
    }
    return None;
  }

  lemma ResumeAtStart(num: NumberText, lines: seq<string>)
    ensures Resume(num, [], None, lines) == Prefixed([], Groups(num, lines))
  {
  }

  lemma NextLine(text: string, pos: nat)
    requires pos <= |text|
    ensures var newline := pos + LengthUntil(text[pos..], '\n');
            && newline <= |text|
            && CleanLines(text[pos..]) == [Trim(text[pos..newline])]
                 + (if newline < |text| then CleanLines(text[newline + 1..]) else [])
  {
    hide Trim;
    var n := LengthUntil(text[pos..], '\n');
    assert text[pos..][..n] == text[pos..pos + n];
    if pos + n < |text| {
      assert text[pos..][n + 1..] == text[pos + n + 1..];
    } else {
      assert text[pos..] == text[pos..pos + n];
    }
  }

  lemma NoValueType(line: string)
    requires IsMessageLine(line) || IsSignalLine(line)
    ensures ValueTypeIn(line) == None
  {
  }

  lemma ValueTypeOfOther(line: string)
    requires !IsMessageLine(line) && !IsSignalLine(line)
    ensures ValueTypeIn(line) == if IsValueTypeLine(line) then ParseValueType(line) else None
  {
  }

  // ----- the float-marking pass

  /** The second pass, in place over every message for every record. */
  method MarkFloatSignals(parsed: seq<Message>, valueTypes: seq<ValueType>) returns (r: Result<seq<Message>>)
    ensures r == MarkFloats(parsed, valueTypes)
  {
    hide Names, FirstNamed;
    var messages := parsed;
    assert forall m: Message :: Marked(m, []) == m;
    for k := 0 to |valueTypes|
      invariant |messages| == |parsed|
      invariant forall i :: 0 <= i < |parsed| ==> messages[i] == Marked(parsed[i], valueTypes[..k])
      invariant forall v, m :: v in valueTypes[..k] && m in parsed ==> !Misplaced(v, m)
    {
      var v := valueTypes[k];
      assert valueTypes[..k + 1] == valueTypes[..k] + [v];
      for i := 0 to |messages|
        invariant |messages| == |parsed|
        invariant forall j :: 0 <= j < i ==> messages[j] == Marked(parsed[j], valueTypes[..k + 1])
        invariant forall j :: i <= j < |parsed| ==> messages[j] == Marked(parsed[j], valueTypes[..k])
        invariant forall j :: 0 <= j < i ==> !Misplaced(v, parsed[j])
      {
        MarkStep(parsed[i], valueTypes[..k], v);
        var m := messages[i];
        if Names(v, m) {
          var index := FirstNamed(m.signals, v.signal);
          if index.Some? {
            var definition := m.signals[index.value].definition;
            if definition.length != 32 && definition.length != 64 {
              assert parsed[i] in parsed && v in valueTypes;
              return Err(ParseError);
            }
            var entry := m.signals[index.value].(definition := definition.(isFloat := true));
            messages := messages[i := m.(signals := m.signals[index.value := entry])];
          }
        }
      }
    }
    assert valueTypes[..|valueTypes|] == valueTypes;
    assert !AnyMisplaced(parsed, valueTypes);
    assert messages == seq(|parsed|, i requires 0 <= i < |parsed| => Marked(parsed[i], valueTypes));
    return Ok(messages);
  }

  /** Marking does not change what a record names or whether it is misplaced. */
  lemma MarkedKeepsNames(m: Message, vs: seq<ValueType>, v: ValueType)
    ensures Names(v, Marked(m, vs)) == Names(v, m)
    ensures FirstNamed(Marked(m, vs).signals, v.signal) == FirstNamed(m.signals, v.signal)
  {
    var marked := Marked(m, vs);
    assert forall j :: 0 <= j < |m.signals| ==> marked.signals[j].definition.name == m.signals[j].definition.name;
    SameFirstNamed(marked.signals, m.signals, v.signal);
  }

  lemma SameFirstNamed(a: seq<SignalEntry>, b: seq<SignalEntry>, name: string)
    requires |a| == |b|
    requires forall j :: 0 <= j < |a| ==> a[j].definition.name == b[j].definition.name
    ensures FirstNamed(a, name) == FirstNamed(b, name)
  {
    var i, j := FirstNamed(a, name), FirstNamed(b, name);
    if i.Some? && j.Some? {
      assert i.value <= j.value && j.value <= i.value;
    }
  }

  /** One more record marks one more signal, or none. */
  lemma MarkStep(m: Message, vs: seq<ValueType>, v: ValueType)
    ensures var before := Marked(m, vs);
            var index := FirstNamed(before.signals, v.signal);
            && Names(v, before) == Names(v, m)
            && (Misplaced(v, m)
                <==> Names(v, before) && index.Some? && !FloatWidth(before.signals[index.value].definition))
            && (Names(v, before) && index.Some? ==>
                  var e := before.signals[index.value];
                  var marked := e.(definition := e.definition.(isFloat := true));
                  Marked(m, vs + [v]) == before.(signals := before.signals[index.value := marked]))
            && (!(Names(v, before) && index.Some?) ==> Marked(m, vs + [v]) == before)
  {
    hide Names, FirstNamed;
    MarkedKeepsNames(m, vs, v);
    var before, after := Marked(m, vs), Marked(m, vs + [v]);
    forall j | 0 <= j < |m.signals|
      ensures after.signals[j] == if Marks(v, m, j)
                                  then before.signals[j].(definition := before.signals[j].definition.(isFloat := true))
                                  else before.signals[j]
    {
      assert forall w :: w in vs + [v] <==> w in vs || w == v;
    }
  }
}
