/** Printing what was parsed: every accepted file prints to text that parses to the same messages. */
module DbcFileReprint {
  import opened CanTypes
  import opened Signals
  import opened DbcText
  import opened DbcRecords
  import opened DbcPrinting
  import opened DbcFile
  import opened DbcFileLaws
  import opened DbcFileRoundTrip

  // ----- what the parser returns comes from the line

  predicate Within(s: string, line: string) {
    forall c :: c in s ==> c in line
  }

  lemma {:induction false} SkipBlanksWithin(s: string)
    ensures Within(SkipBlanks(s), s)
  {
    if s != [] && IsBlank(s[0]) { SkipBlanksWithin(s[1..]); }
  }

  lemma TokenWithin(s: string)
    ensures Within(TakeToken(s).text, s) && Within(TakeToken(s).rest, s)
  {
    hide WordLength;
    SkipBlanksWithin(s);
  }

  lemma UntilWithin(s: string, d: char)
    ensures Within(TakeUntil(s, d).text, s) && Within(TakeUntil(s, d).rest, s)
  {
    hide LengthUntil;
  }

  lemma ConsumeWithin(s: string, c: char)
    ensures Within(AfterConsume(s, c), s)
  {
    SkipBlanksWithin(s);
  }

  lemma HeaderNameWithin(line: string)
    requires ParseMessage(line).Ok?
    ensures Within(ParseMessage(line).value.name, line)
  {
    hide TakeToken, TakeUntil, AfterConsume, NextIs, ParseU32, Trim, IdOfRaw, SkipBlanks;
    var keyword := TakeToken(line);
    var raw := TakeToken(keyword.rest);
    TokenWithin(line);
    TokenWithin(keyword.rest);
    SkipBlanksWithin(raw.rest);
    UntilWithin(SkipBlanks(raw.rest), ':');
    TrimEnds(TakeUntil(SkipBlanks(raw.rest), ':').text);
  }

  lemma HeadWithin(line: string)
    requires ParseHead(line).Ok?
    ensures Within(ParseHead(line).value.name, line) && Within(ParseHead(line).value.rest, line)
  {
    hide TakeToken, ParseU32;
    var keyword := TakeToken(line);
    var name := TakeToken(keyword.rest);
    var marker := TakeToken(name.rest);
    TokenWithin(line);
    TokenWithin(keyword.rest);
    TokenWithin(name.rest);
    TokenWithin(marker.rest);
  }

  lemma ScalingWithin(num: NumberText, s: string)
    requires ParseScaling(num, s).Ok?
    ensures Within(ParseScaling(num, s).value.rest, s)
  {
    hide TakeUntil, AfterConsume, NextIs, ParseDouble;
    var factor := TakeUntil(AfterConsume(s, '('), ',');
    var offset := TakeUntil(AfterConsume(factor.rest, ','), ')');
    ConsumeWithin(s, '(');
    UntilWithin(AfterConsume(s, '('), ',');
    ConsumeWithin(factor.rest, ',');
    UntilWithin(AfterConsume(factor.rest, ','), ')');
    ConsumeWithin(offset.rest, ')');
  }

  lemma RangeWithin(num: NumberText, s: string)
    ensures Within(ParseRange(num, s).rest, s)
  {
    hide TakeUntil, AfterConsume, NextIs, ParseDouble, Less;
    var low := TakeUntil(AfterConsume(s, '['), '|');
    var high := TakeUntil(AfterConsume(low.rest, '|'), ']');
    ConsumeWithin(s, '[');
    UntilWithin(AfterConsume(s, '['), '|');
    ConsumeWithin(low.rest, '|');
    UntilWithin(AfterConsume(low.rest, '|'), ']');
    ConsumeWithin(high.rest, ']');
  }

  lemma UnitWithin(s: string)
    ensures Within(ParseUnit(s), s)
  {
    hide TakeUntil, AfterConsume, NextIs;
    ConsumeWithin(s, '"');
    UntilWithin(AfterConsume(s, '"'), '"');
  }

  lemma SignalWithin(num: NumberText, line: string)
    requires ParseSignal(num, line).Ok?
    ensures Within(ParseSignal(num, line).value.name, line) && Within(ParseSignal(num, line).value.unit, line)
  {
    hide ParseHead, ParseLayout, ParseScaling, ParseRange, ParseUnit, TakeToken;
    var head := ParseHead(line).value;
    var layout := TakeToken(head.rest);
    var scaling := ParseScaling(num, layout.rest).value;
    var range := ParseRange(num, scaling.rest);
    HeadWithin(line);
    TokenWithin(head.rest);
    ScalingWithin(num, layout.rest);
    RangeWithin(num, scaling.rest);
    UnitWithin(range.rest);
  }

  lemma {:induction false} CleanLinesAreOneLine(text: string)
    ensures forall i :: 0 <= i < |CleanLines(text)| ==> OneLine(CleanLines(text)[i])
    decreases |text|
  {
    hide Trim;
    var n := LengthUntil(text, '\n');
    TrimEnds(text[..n]);
    assert OneLine(Trim(text[..n]));
    if n == |text| {
      assert text[..n] == text;
    } else {
      CleanLinesAreOneLine(text[n + 1..]);
    }
  }

  // ----- what the parser returns can be printed

  /** The format prints every number on one line. */
  ghost predicate OneLineNumbers(num: NumberText) {
    forall d: Double :: OneLine(num.show(d))
  }

  lemma ParsedEntryPrintable(num: NumberText, line: string)
    requires Faithful(num) && OneLineNumbers(num) && OneLine(line) && ParseSignal(num, line).Ok?
    ensures PrintableEntry(num, EntryOf(ParseSignal(num, line).value))
    ensures !ParseSignal(num, line).value.isFloat
  {
    hide ParseSignal, Printable, Compile, PrintSignal, ReadBack;
    var sig := ParseSignal(num, line).value;
    AcceptedSignalsReprint(num, line, "");
    SignalRoundTrip(num, sig, "");
    SignalWithin(num, line);
    assert ReadBack(sig) == sig;
    ReadBackHasNoFloat(sig);
    ReadBackIgnoresFloat(num, sig, false);
  }

  lemma ReadBackHasNoFloat(sig: Signal)
    ensures !ReadBack(sig).isFloat
  {
  }

  lemma ReadBackIgnoresFloat(num: NumberText, sig: Signal, flag: bool)
    ensures ReadBack(sig.(isFloat := flag)) == ReadBack(sig)
    ensures Printable(num, sig.(isFloat := flag)) == Printable(num, sig)
  {
  }

  /** A message whose header, entries and names can be printed; before marking, none is a float. */
  ghost predicate Plain(num: NumberText, m: Message) {
    && PrintableHeader(HeaderOf(m)) && OneLine(m.name)
    && forall j :: 0 <= j < |m.signals| ==>
         PrintableEntry(num, m.signals[j]) && !m.signals[j].definition.isFloat
  }

  lemma {:induction false} SignalsPrintable(num: NumberText, lines: seq<string>)
    requires Faithful(num) && OneLineNumbers(num)
    requires forall i :: 0 <= i < |lines| ==> OneLine(lines[i])
    requires SignalsOf(num, lines).Ok?
    ensures var entries := SignalsOf(num, lines).value;
            forall j :: 0 <= j < |entries| ==> PrintableEntry(num, entries[j]) && !entries[j].definition.isFloat
  {
    hide ParseSignal, EntryOf, PrintableEntry, OneLine, Faithful, OneLineNumbers, IsSignalLine;
    if lines != [] {
      SignalsPrintable(num, lines[1..]);
      if IsSignalLine(lines[0]) {
        ParsedEntryPrintable(num, lines[0]);
        EntryKeepsDefinition(ParseSignal(num, lines[0]).value);
      }
    }
  }

  lemma EntryKeepsDefinition(sig: Signal)
    requires sig.Valid()
    ensures EntryOf(sig).definition == sig
  {
    hide Compile;
  }

  lemma HeaderPrintable(line: string)
    requires OneLine(line) && ParseMessage(line).Ok?
    ensures var m := EmptyMessage(ParseMessage(line).value);
            PrintableHeader(HeaderOf(m)) && OneLine(m.name)
  {
    hide ParseMessage, PrintableHeader, PrintHeader;
    AcceptedHeadersReprint(line, "");
    HeaderNameWithin(line);
  }

  lemma {:induction false} GroupsPlain(num: NumberText, lines: seq<string>)
    requires Faithful(num) && OneLineNumbers(num)
    requires forall i :: 0 <= i < |lines| ==> OneLine(lines[i])
    requires Groups(num, lines).Ok?
    ensures forall i :: 0 <= i < |Groups(num, lines).value| ==> Plain(num, Groups(num, lines).value[i])
    decreases |lines|
  {
    hide ParseMessage, SignalsOf, OneLine, Plain, Faithful, OneLineNumbers, IsMessageLine;
    if lines != [] {
      if !IsMessageLine(lines[0]) {
        GroupsPlain(num, lines[1..]);
      } else {
        var body := Body(lines[1..]);
        GroupsPlain(num, lines[1 + |body|..]);
        GroupPlain(num, lines[0], body);
      }
    }
  }

  lemma GroupPlain(num: NumberText, line: string, body: seq<string>)
    requires Faithful(num) && OneLineNumbers(num) && OneLine(line)
    requires forall i :: 0 <= i < |body| ==> OneLine(body[i])
    requires ParseMessage(line).Ok? && SignalsOf(num, body).Ok?
    ensures Plain(num, EmptyMessage(ParseMessage(line).value).(signals := SignalsOf(num, body).value))
  {
    hide ParseMessage, SignalsOf, OneLine, PrintableEntry, PrintableHeader, Faithful, OneLineNumbers;
    HeaderPrintable(line);
    SignalsPrintable(num, body);
  }

  // ----- and marking keeps it printable

  lemma MarkedEntryPrintable(num: NumberText, e: SignalEntry, flag: bool)
    requires PrintableEntry(num, e) && !e.definition.isFloat && (flag ==> FloatWidth(e.definition))
    ensures PrintableEntry(num, e.(definition := e.definition.(isFloat := flag)))
  {
    hide Printable, Compile, ReadBack, OneLine;
    var sig := e.definition;
    PrintableIsValid(num, sig);
    CompileIgnoresFloat(sig, flag);
    ReadBackIgnoresFloat(num, sig, flag);
  }

  lemma PrintableIsValid(num: NumberText, sig: Signal)
    requires Printable(num, sig)
    ensures sig.Valid()
  {
  }

  lemma AcceptedMessagePrintable(num: NumberText, text: string, i: nat)
    requires Faithful(num) && OneLineNumbers(num)
    requires ParseFile(num, text).Ok? && i < |ParseFile(num, text).value|
    ensures PrintableMessage(num, ParseFile(num, text).value[i])
  {
    hide Groups, CleanLines, ValueTypes, Faithful, OneLineNumbers, PrintableEntry, OneLine, PrintableHeader;
    hide AnyMisplaced, Marks;
    var lines := CleanLines(text);
    var before := Groups(num, lines).value;
    CleanLinesAreOneLine(text);
    GroupsPlain(num, lines);
    assert Plain(num, before[i]);
    var m := ParseFile(num, text).value[i];
    assert m == Marked(before[i], ValueTypes(lines));
    forall j | 0 <= j < |m.signals|
      ensures PrintableEntry(num, m.signals[j])
    {
      FloatExactlyWhenNamed(num, text, i, j);
      MarkedEntryPrintable(num, before[i].signals[j], m.signals[j].definition.isFloat);
      assert m.signals[j] == MarkedEntry(before[i], ValueTypes(lines), j);
    }
  }

  /** In every accepted file, duplicate identifiers and names or not, the float marks agree. */
  lemma AcceptedMarksAgree(num: NumberText, text: string)
    requires ParseFile(num, text).Ok?
    ensures MarksAgree(ParseFile(num, text).value)
  {
    hide Groups, CleanLines, ValueTypes, AnyMisplaced, MarkAgrees, Marked;
    var ms := ParseFile(num, text).value;
    forall i, j | 0 <= i < |ms| && 0 <= j < |ms[i].signals| && ms[i].signals[j].definition.isFloat
      ensures MarkAgrees(ms, i, j)
    {
      AcceptedMarkAgrees(num, text, i, j);
    }
  }

  lemma AcceptedMarkAgrees(num: NumberText, text: string, i: nat, j: nat)
    requires ParseFile(num, text).Ok?
    requires i < |ParseFile(num, text).value| && j < |ParseFile(num, text).value[i].signals|
    requires ParseFile(num, text).value[i].signals[j].definition.isFloat
    ensures MarkAgrees(ParseFile(num, text).value, i, j)
  {
    hide Groups, CleanLines, ValueTypes, AnyMisplaced, FirstNamed, Marked, ParseFile;
    var lines := CleanLines(text);
    var ms, vs := ParseFile(num, text).value, ValueTypes(lines);
    ParsedIsMarked(num, text);
    var before := Groups(num, lines).value;
    FloatExactlyWhenNamed(num, text, i, j);
    var v :| v in vs && Marks(v, before[i], j);
    MarkedKeepsNames(before[i], vs, v);
    assert ms[i].signals[j].definition.name == v.signal;
    forall k | 0 <= k < |ms| && ms[k].id == ms[i].id
      ensures FirstIsFloat(ms[k].signals, v.signal)
    {
      MarkedKeepsNames(before[k], vs, v);
      SameIdSameNames(v, before[i], before[k]);
      var first := FirstNamed(ms[k].signals, v.signal);
      if first.Some? {
        assert Marks(v, before[k], first.value);
        FloatExactlyWhenNamed(num, text, k, first.value);
      }
    }
  }

  lemma ParsedIsMarked(num: NumberText, text: string)
    requires ParseFile(num, text).Ok?
    ensures Groups(num, CleanLines(text)).Ok?
    ensures var before, after := Groups(num, CleanLines(text)).value, ParseFile(num, text).value;
            |after| == |before|
            && forall i :: 0 <= i < |after| ==>
                 after[i] == Marked(before[i], ValueTypes(CleanLines(text))) && after[i].id == before[i].id
  {
    hide Groups, CleanLines, ValueTypes, AnyMisplaced, MarkedEntry;
  }

  lemma SameIdSameNames(v: ValueType, m: Message, n: Message)
    requires m.id == n.id
    ensures Names(v, m) == Names(v, n)
  {
  }

  // ----- the theorems

  /**
   Every accepted file, whatever else is on its lines, prints to text that parses to
   the same messages, float marks included.
   */
  lemma AcceptedFilesReprint(num: NumberText, text: string)
    requires Faithful(num) && OneLineNumbers(num)
    ensures ParseFile(num, text).Ok? ==>
              var ms := ParseFile(num, text).value;
              ParseFile(num, PrintFile(num, ms)) == Ok(ms)
  {
    hide PrintFile, ParseFile, Faithful, OneLineNumbers, PrintableMessage, MarksAgree;
    if ParseFile(num, text).Ok? {
      var ms := ParseFile(num, text).value;
      forall i | 0 <= i < |ms|
        ensures PrintableMessage(num, ms[i])
      {
        AcceptedMessagePrintable(num, text, i);
      }
      AcceptedMarksAgree(num, text);
      FileRoundTrip(num, ms);
    }
  }

  /** Messages that lines can hold survive printing and parsing exactly when their float marks agree. */
  lemma RoundTripExactlyWhen(num: NumberText, ms: seq<Message>)
    requires PrintableMessages(num, ms)
    ensures ParseFile(num, PrintFile(num, ms)) == Ok(ms) <==> MarksAgree(ms)
  {
    hide PrintFile, ParseFile, PrintableMessages, MarksAgree;
    if ParseFile(num, PrintFile(num, ms)) == Ok(ms) {
      AcceptedMarksAgree(num, PrintFile(num, ms));
    }
    if MarksAgree(ms) {
      FileRoundTrip(num, ms);
    }
  }
}
