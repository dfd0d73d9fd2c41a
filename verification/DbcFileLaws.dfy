/** What a parsed file contains, stated line by line and signal by signal. */
module DbcFileLaws {
  import opened CanTypes
  import opened Packing
  import opened Signals
  import opened DbcText
  import opened DbcRecords
  import opened DbcPrinting
  import opened DbcFile

  // ----- when grouping succeeds

  /** Every line the loop takes for a message parses, and so does every one it takes for a signal of a message. */
  ghost predicate AllParse(num: NumberText, lines: seq<string>) {
    && (forall i :: 0 <= i < |lines| && IsMessageLine(lines[i]) ==> ParseMessage(lines[i]).Ok?)
    && (forall i, j :: 0 <= i < j < |lines| && IsMessageLine(lines[i]) && IsSignalLine(lines[j]) ==>
          ParseSignal(num, lines[j]).Ok?)
  }

  lemma {:induction false} SignalsSucceedExactlyWhen(num: NumberText, lines: seq<string>)
    ensures SignalsOf(num, lines).Ok?
            <==> forall j :: 0 <= j < |lines| && IsSignalLine(lines[j]) ==> ParseSignal(num, lines[j]).Ok?
  {
    hide ParseSignal, EntryOf;
    if lines != [] {
      SignalsSucceedExactlyWhen(num, lines[1..]);
      assert forall j :: 1 <= j < |lines| ==> lines[j] == lines[1..][j - 1];
    }
  }

  lemma {:induction false} GroupingSucceedsExactlyWhen(num: NumberText, lines: seq<string>)
    ensures Groups(num, lines).Ok? <==> AllParse(num, lines)
    decreases |lines|
  {
    hide ParseSignal, ParseMessage, SignalsOf, Groups, Body, IsMessageLine, IsSignalLine, AllParse;
    if lines == [] {
      EmptyGroups(num);
    } else if !IsMessageLine(lines[0]) {
      GroupingSucceedsExactlyWhen(num, lines[1..]);
      DropOutsideLine(num, lines);
    } else {
      var body := Body(lines[1..]);
      GroupingSucceedsExactlyWhen(num, lines[1 + |body|..]);
      SignalsSucceedExactlyWhen(num, body);
      SplitFirstGroup(num, lines);
    }
  }

  lemma EmptyGroups(num: NumberText)
    ensures Groups(num, []).Ok? && AllParse(num, [])
  {
  }

  lemma DropOutsideLine(num: NumberText, lines: seq<string>)
    requires lines != [] && !IsMessageLine(lines[0])
    ensures Groups(num, lines) == Groups(num, lines[1..])
    ensures AllParse(num, lines) <==> AllParse(num, lines[1..])
  {
    hide ParseSignal, ParseMessage, IsMessageLine, IsSignalLine;
    assert forall j :: 1 <= j < |lines| ==> lines[j] == lines[1..][j - 1];
    assert forall j :: 0 <= j < |lines| - 1 ==> lines[j + 1] == lines[1..][j];
  }

  /** A file that starts with a message line parses when its first group and the rest do. */
  lemma SplitFirstGroup(num: NumberText, lines: seq<string>)
    requires lines != [] && IsMessageLine(lines[0])
    ensures var body := Body(lines[1..]);
            AllParse(num, lines)
            <==> ParseMessage(lines[0]).Ok?
                 && (forall j :: 0 <= j < |body| && IsSignalLine(body[j]) ==> ParseSignal(num, body[j]).Ok?)
                 && AllParse(num, lines[1 + |body|..])
    ensures var body := Body(lines[1..]);
            Groups(num, lines).Ok?
            <==> ParseMessage(lines[0]).Ok? && SignalsOf(num, body).Ok? && Groups(num, lines[1 + |body|..]).Ok?
  {
    hide ParseSignal, ParseMessage, IsMessageLine, IsSignalLine, SignalsOf, AllParse;
    var body := Body(lines[1..]);
    if AllParse(num, lines) {
      PartsParse(num, lines, body);
    }
    if ParseMessage(lines[0]).Ok? && AllParse(num, lines[1 + |body|..])
       && forall j :: 0 <= j < |body| && IsSignalLine(body[j]) ==> ParseSignal(num, body[j]).Ok? {
      WholeParses(num, lines, body);
    }
  }

  lemma PartsParse(num: NumberText, lines: seq<string>, body: seq<string>)
    requires lines != [] && IsMessageLine(lines[0])
    requires 1 + |body| <= |lines| && lines[1..1 + |body|] == body
    requires AllParse(num, lines)
    ensures ParseMessage(lines[0]).Ok?
    ensures forall j :: 0 <= j < |body| && IsSignalLine(body[j]) ==> ParseSignal(num, body[j]).Ok?
    ensures AllParse(num, lines[1 + |body|..])
  {
    hide ParseSignal, ParseMessage, IsMessageLine, IsSignalLine;
    var n := 1 + |body|;
    var rest := lines[n..];
    assert forall j :: 0 <= j < |body| ==> lines[j + 1] == body[j];
    assert forall j :: 0 <= j < |rest| ==> lines[n + j] == rest[j];
  }

  lemma WholeParses(num: NumberText, lines: seq<string>, body: seq<string>)
    requires lines != [] && IsMessageLine(lines[0])
    requires 1 + |body| <= |lines| && lines[1..1 + |body|] == body
    requires forall i :: 0 <= i < |body| ==> !IsMessageLine(body[i])
    requires 1 + |body| < |lines| ==> IsMessageLine(lines[1 + |body|])
    requires ParseMessage(lines[0]).Ok? && AllParse(num, lines[1 + |body|..])
    requires forall j :: 0 <= j < |body| && IsSignalLine(body[j]) ==> ParseSignal(num, body[j]).Ok?
    ensures AllParse(num, lines)
  {
    hide ParseSignal, ParseMessage, IsMessageLine, IsSignalLine;
    var n := 1 + |body|;
    var rest := lines[n..];
    forall i, j | 0 <= i < j < |lines| && IsMessageLine(lines[i]) && IsSignalLine(lines[j])
      ensures ParseSignal(num, lines[j]).Ok?
    {
      if j < n {
        assert lines[j] == body[j - 1];
      } else {
        MessageIsNoSignal(rest[0]);
        assert rest[j - n] == lines[j];
      }
    }
    forall i | 0 <= i < |lines| && IsMessageLine(lines[i])
      ensures ParseMessage(lines[i]).Ok?
    {
      assert forall j :: 1 <= j < n ==> lines[j] == body[j - 1];
      if n <= i {
        assert rest[i - n] == lines[i];
      }
    }
  }

  lemma MessageIsNoSignal(line: string)
    ensures !(IsMessageLine(line) && IsSignalLine(line))
  {
    if IsMessageLine(line) {
      assert line[0] == 'B';
    }
  }

  // ----- malformed records

  /** A BO_ or SG_ record is a line whose first word is that keyword; BO_TX_BU_, say, is another keyword. */
  predicate IsMessageRecord(line: string) { TakeToken(line).text == "BO_" }
  predicate IsSignalRecord(line: string) { TakeToken(line).text == "SG_" }

  /** A record that its own parser rejects. */
  predicate Malformed(num: NumberText, line: string) {
    (IsMessageRecord(line) && ParseMessage(line).Err?) || (IsSignalRecord(line) && ParseSignal(num, line).Err?)
  }

  predicate SpaceAfterKeyword(line: string) {
    |line| > 3 && line[3] == ' '
  }

  /** The loop reads the record on line j: a space follows its keyword and a signal has a message to go to. */
  predicate Reads(lines: seq<string>, j: nat)
    requires j < |lines|
  {
    && SpaceAfterKeyword(lines[j])
    && (IsSignalRecord(lines[j]) ==>
          exists i :: 0 <= i < j && IsMessageRecord(lines[i]) && SpaceAfterKeyword(lines[i]))
  }

  predicate StartsTight(line: string) {
    line == [] || !IsTrimmed(line[0])
  }

  lemma {:induction false} CleanLinesStartTight(text: string)
    ensures forall i :: 0 <= i < |CleanLines(text)| ==> StartsTight(CleanLines(text)[i])
    decreases |text|
  {
    hide Trim;
    var n := LengthUntil(text, '\n');
    if n == |text| {
      TrimEnds(text);
    } else {
      TrimEnds(text[..n]);
      CleanLinesStartTight(text[n + 1..]);
    }
  }

  /** What the loop takes for a message or a signal is the record with a space after its keyword. */
  lemma GuardIsSpacedRecord(line: string)
    requires StartsTight(line)
    ensures IsMessageLine(line) <==> IsMessageRecord(line) && SpaceAfterKeyword(line)
    ensures IsSignalLine(line) <==> IsSignalRecord(line) && SpaceAfterKeyword(line)
  {
    GuardIsSpacedKeyword(line, "BO_");
    GuardIsSpacedKeyword(line, "SG_");
  }

  lemma GuardIsSpacedKeyword(line: string, keyword: string)
    requires StartsTight(line) && |keyword| == 3 && Blankless(keyword)
    ensures keyword + " " <= line <==> TakeToken(line).text == keyword && SpaceAfterKeyword(line)
  {
    hide WordLength, IsTrimmed;
    assert SkipBlanks(line) == line by { TightSkipsNothing(line); }
    if keyword + " " <= line {
      var rest := line[3..];
      assert line == keyword + rest;
      assert line[3] == (keyword + " ")[3] == ' ';
      WordLengthOf(keyword, rest);
    }
    if TakeToken(line).text == keyword && SpaceAfterKeyword(line) {
      assert line[..4] == line[..3] + [line[3]] == keyword + " ";
    }
  }

  lemma TightSkipsNothing(line: string)
    requires StartsTight(line)
    ensures SkipBlanks(line) == line
  {
  }

  /** The lines fail to group exactly when the loop reads a malformed record. */
  lemma GroupingFailsExactlyWhen(num: NumberText, lines: seq<string>)
    requires forall i :: 0 <= i < |lines| ==> StartsTight(lines[i])
    ensures Groups(num, lines).Err? <==> exists j :: 0 <= j < |lines| && Malformed(num, lines[j]) && Reads(lines, j)
  {
    hide Groups, ParseSignal, ParseMessage, IsMessageLine, IsSignalLine, SpaceAfterKeyword, StartsTight;
    hide IsMessageRecord, IsSignalRecord;
    GroupingSucceedsExactlyWhen(num, lines);
    forall i | 0 <= i < |lines|
      ensures IsMessageLine(lines[i]) <==> IsMessageRecord(lines[i]) && SpaceAfterKeyword(lines[i])
      ensures IsSignalLine(lines[i]) <==> IsSignalRecord(lines[i]) && SpaceAfterKeyword(lines[i])
      ensures !(IsMessageRecord(lines[i]) && IsSignalRecord(lines[i]))
    {
      GuardIsSpacedRecord(lines[i]);
      OneKeyword(lines[i]);
    }
    if j :| 0 <= j < |lines| && Malformed(num, lines[j]) && Reads(lines, j) {
      assert !AllParse(num, lines);
    }
    if !AllParse(num, lines) {
      UnparsedIsRead(num, lines);
    }
  }

  lemma OneKeyword(line: string)
    ensures !(IsMessageRecord(line) && IsSignalRecord(line))
  {
    hide TakeToken;
    if IsMessageRecord(line) {
      assert TakeToken(line).text[0] == 'B';
    }
  }

  lemma UnparsedIsRead(num: NumberText, lines: seq<string>)
    requires !AllParse(num, lines)
    requires forall i :: 0 <= i < |lines| ==>
               && (IsMessageLine(lines[i]) <==> IsMessageRecord(lines[i]) && SpaceAfterKeyword(lines[i]))
               && (IsSignalLine(lines[i]) <==> IsSignalRecord(lines[i]) && SpaceAfterKeyword(lines[i]))
               && !(IsMessageRecord(lines[i]) && IsSignalRecord(lines[i]))
    ensures exists j :: 0 <= j < |lines| && Malformed(num, lines[j]) && Reads(lines, j)
  {
    hide ParseSignal, ParseMessage, IsMessageLine, IsSignalLine, SpaceAfterKeyword, IsMessageRecord, IsSignalRecord;
    if j :| 0 <= j < |lines| && IsMessageLine(lines[j]) && ParseMessage(lines[j]).Err? {
      assert Malformed(num, lines[j]) && Reads(lines, j);
    } else {
      var i, j :| 0 <= i < j < |lines| && IsMessageLine(lines[i]) && IsSignalLine(lines[j])
                  && ParseSignal(num, lines[j]).Err?;
      assert Malformed(num, lines[j]) && Reads(lines, j);
    }
  }

  /**
   The documentation promises parse_error for a malformed BO_ or SG_ record. The first
   malformed one that is read ends the loop; one on line j, nothing before it having
   failed, is reported there exactly when a space follows its keyword and, for a
   signal, a message record with a space after its keyword comes before it.
   */
  lemma MalformedReportedExactlyWhen(num: NumberText, text: string, j: nat)
    requires j < |CleanLines(text)| && Malformed(num, CleanLines(text)[j])
    requires Groups(num, CleanLines(text)[..j]).Ok?
    ensures Groups(num, CleanLines(text)[..j + 1]).Err? <==> Reads(CleanLines(text), j)
    ensures Reads(CleanLines(text), j) ==> ParseFile(num, text) == Err(ParseError)
  {
    hide Groups, Malformed, CleanLines, StartsTight, IsMessageRecord, IsSignalRecord, SpaceAfterKeyword, MarkFloats;
    var lines := CleanLines(text);
    CleanLinesStartTight(text);
    GroupingFailsExactlyWhen(num, lines);
    GroupingFailsExactlyWhen(num, lines[..j]);
    GroupingFailsExactlyWhen(num, lines[..j + 1]);
    forall i | 0 <= i <= j
      ensures lines[..j + 1][i] == lines[i] && Reads(lines[..j + 1], i) == Reads(lines, i)
    {
    }
    forall i | 0 <= i < j
      ensures lines[..j][i] == lines[i] && Reads(lines[..j], i) == Reads(lines, i)
    {
    }
    if Reads(lines, j) {
      assert Malformed(num, lines[..j + 1][j]) && Reads(lines[..j + 1], j);
    }
  }

  // ----- what the groups hold

  /** How many message lines come before line i. */
  function Rank(lines: seq<string>, i: nat): nat
    requires i <= |lines|
  {
    if i == 0 then 0 else Rank(lines, i - 1) + if IsMessageLine(lines[i - 1]) then 1 else 0
  }

  /** The signal lines among some lines, in order. */
  function SignalLines(lines: seq<string>): seq<string> {
    if lines == [] then []
    else if IsSignalLine(lines[0]) then [lines[0]] + SignalLines(lines[1..])
    else SignalLines(lines[1..])
  }

  lemma {:induction false} EntriesInOrder(num: NumberText, lines: seq<string>)
    requires SignalsOf(num, lines).Ok?
    ensures var entries := SignalsOf(num, lines).value;
            && |entries| == |SignalLines(lines)|
            && forall j :: 0 <= j < |entries| ==>
                 ParseSignal(num, SignalLines(lines)[j]).Ok?
                 && entries[j] == EntryOf(ParseSignal(num, SignalLines(lines)[j]).value)
  {
    hide ParseSignal, EntryOf, IsSignalLine;
    if lines != [] { EntriesInOrder(num, lines[1..]); }
  }

  lemma {:induction false} RankOfSuffix(lines: seq<string>, n: nat, i: nat)
    requires n <= i <= |lines|
    ensures Rank(lines, i) == Rank(lines, n) + Rank(lines[n..], i - n)
    decreases i
  {
    hide IsMessageLine;
    if i > n {
      RankOfSuffix(lines, n, i - 1);
      assert lines[n..][i - 1 - n] == lines[i - 1];
    }
  }

  lemma {:induction false} RankFlat(lines: seq<string>, n: nat, i: nat)
    requires n <= i <= |lines|
    requires forall j :: n <= j < i ==> !IsMessageLine(lines[j])
    ensures Rank(lines, i) == Rank(lines, n)
    decreases i
  {
    hide IsMessageLine;
    if i > n { RankFlat(lines, n, i - 1); }
  }

  /**
   The messages are the message lines in order; the one at line i holds the header
   of that line and the signal lines up to the next message line, in order.
   */
  lemma {:induction false} MessageOfLine(num: NumberText, lines: seq<string>, i: nat)
    requires Groups(num, lines).Ok? && i < |lines| && IsMessageLine(lines[i])
    ensures HoldsGroup(num, lines, i, Groups(num, lines).value, Rank(lines, i))
    decreases |lines|
  {
    hide ParseSignal, ParseMessage, SignalsOf, IsMessageLine, Rank, HoldsGroup, Body;
    if !IsMessageLine(lines[0]) {
      MessageOfLine(num, lines[1..], i - 1);
      RankOfSuffix(lines, 1, i);
      RankStart(lines);
      ShiftGroup(num, lines, 1, i, Groups(num, lines).value, []);
    } else if i == 0 {
      RankStart(lines);
      FirstGroupHeld(num, lines);
    } else {
      var n := 1 + |Body(lines[1..])|;
      assert forall j :: 1 <= j < n ==> lines[j] == Body(lines[1..])[j - 1];
      assert n <= i;
      MessageOfLine(num, lines[n..], i - n);
      FirstGroupRank(lines);
      RankOfSuffix(lines, n, i);
      ShiftGroup(num, lines, n, i, Groups(num, lines[n..]).value, [Groups(num, lines).value[0]]);
    }
  }

  /** Message r is the group of line i: its header, and the signals up to the next message line. */
  ghost predicate HoldsGroup(num: NumberText, lines: seq<string>, i: nat, ms: seq<Message>, r: nat)
    requires i < |lines|
  {
    var body := Body(lines[i + 1..]);
    && r < |ms|
    && ParseMessage(lines[i]).Ok? && SignalsOf(num, body).Ok?
    && ms[r] == EmptyMessage(ParseMessage(lines[i]).value).(signals := SignalsOf(num, body).value)
  }

  lemma ShiftGroup(num: NumberText, lines: seq<string>, n: nat, i: nat, ms: seq<Message>, before: seq<Message>)
    requires n <= i < |lines|
    requires HoldsGroup(num, lines[n..], i - n, ms, Rank(lines[n..], i - n))
    ensures HoldsGroup(num, lines, i, before + ms, |before| + Rank(lines[n..], i - n))
    ensures before == [] ==> before + ms == ms
  {
    hide ParseMessage, SignalsOf, Rank, Body;
    assert lines[n..][i - n] == lines[i];
    assert lines[n..][i - n + 1..] == lines[i + 1..];
  }

  lemma FirstGroupHeld(num: NumberText, lines: seq<string>)
    requires Groups(num, lines).Ok? && lines != [] && IsMessageLine(lines[0])
    ensures HoldsGroup(num, lines, 0, Groups(num, lines).value, 0)
  {
    hide ParseMessage, SignalsOf, IsMessageLine, Body;
  }

  lemma RankStart(lines: seq<string>)
    requires lines != []
    ensures Rank(lines, 0) == 0 && Rank(lines, 1) == if IsMessageLine(lines[0]) then 1 else 0
  {
    hide IsMessageLine;
  }

  lemma FirstGroupRank(lines: seq<string>)
    requires lines != [] && IsMessageLine(lines[0])
    ensures Rank(lines, 1 + |Body(lines[1..])|) == 1
  {
    hide IsMessageLine, Rank;
    var body := Body(lines[1..]);
    RankStart(lines);
    assert forall j :: 1 <= j < 1 + |body| ==> lines[j] == body[j - 1];
    RankFlat(lines, 1, 1 + |body|);
  }

  /** No message comes from anywhere else. */
  lemma {:induction false} OneMessagePerLine(num: NumberText, lines: seq<string>)
    requires Groups(num, lines).Ok?
    ensures |Groups(num, lines).value| == Rank(lines, |lines|)
    decreases |lines|
  {
    hide ParseSignal, ParseMessage, SignalsOf, IsMessageLine, Rank;
    if lines == [] {
      NoRank();
    } else if !IsMessageLine(lines[0]) {
      OneMessagePerLine(num, lines[1..]);
      RankStart(lines);
      RankOfSuffix(lines, 1, |lines|);
    } else {
      var n := 1 + |Body(lines[1..])|;
      OneMessagePerLine(num, lines[n..]);
      FirstGroupRank(lines);
      RankOfSuffix(lines, n, |lines|);
    }
  }

  lemma NoRank()
    ensures Rank([], 0) == 0
  {
  }

  // ----- plans and float marks

  /** Each entry's plan is the one compiled from its signal. */
  ghost predicate Compiled(m: Message) {
    forall j :: 0 <= j < |m.signals| ==>
      m.signals[j].definition.Valid() && m.signals[j].plan == Compile(m.signals[j].definition)
  }

  lemma {:induction false} GroupsCompiled(num: NumberText, lines: seq<string>)
    requires Groups(num, lines).Ok?
    ensures forall m :: m in Groups(num, lines).value ==> Compiled(m) && NoFloats(m)
    decreases |lines|
  {
    hide ParseMessage, ParseSignal, SignalsOf, Compile, IsMessageLine;
    if lines != [] {
      if !IsMessageLine(lines[0]) {
        GroupsCompiled(num, lines[1..]);
      } else {
        var body := Body(lines[1..]);
        GroupsCompiled(num, lines[1 + |body|..]);
        EntriesInOrder(num, body);
        ParsedIsNoFloat(num);
      }
    }
  }

  ghost predicate NoFloats(m: Message) {
    forall j :: 0 <= j < |m.signals| ==> !m.signals[j].definition.isFloat
  }

  lemma ParsedIsNoFloat(num: NumberText)
    ensures forall line :: ParseSignal(num, line).Ok? ==> !ParseSignal(num, line).value.isFloat
  {
    hide ParseHead, ParseLayout, ParseScaling, ParseRange, ParseUnit, TakeToken;
  }

  /** A record names the messages whose raw identifier is its number. */
  lemma NamesExactlyWhen(v: ValueType, m: Message)
    requires PlainId(m.id)
    ensures Names(v, m) <==> v.rawId == m.id.raw
  {
    PlainRaw(m.id);
  }

  /** The float flag is not part of the layout, so marking keeps plans compiled. */
  lemma CompileIgnoresFloat(sig: Signal, flag: bool)
    requires sig.Valid()
    ensures Compile(sig.(isFloat := flag)) == Compile(sig)
  {
    hide Chunks, Reach;
    assert sig.(isFloat := flag).Layout() == sig.Layout();
  }

  /** In every parsed database each stored plan equals the plan compiled from its signal. */
  lemma PlansStayCompiled(num: NumberText, text: string)
    requires ParseFile(num, text).Ok?
    ensures forall m :: m in ParseFile(num, text).value ==> Compiled(m)
  {
    hide Groups, CleanLines, Compile, ValueTypes, AnyMisplaced, Marks;
    var lines := CleanLines(text);
    var ms := Groups(num, lines).value;
    GroupsCompiled(num, lines);
    forall m | m in ParseFile(num, text).value
      ensures Compiled(m)
    {
      var i :| 0 <= i < |ms| && m == Marked(ms[i], ValueTypes(lines));
      forall j | 0 <= j < |m.signals|
        ensures m.signals[j].definition.Valid() && m.signals[j].plan == Compile(m.signals[j].definition)
      {
        assert ms[i] in ms;
        CompileIgnoresFloat(ms[i].signals[j].definition, m.signals[j].definition.isFloat);
      }
    }
  }

  /**
   A parsed signal is a float exactly when some SIG_VALTYPE_ record names its
   message and is the first match for its name; nothing else about it changes.
   */
  lemma FloatExactlyWhenNamed(num: NumberText, text: string, i: nat, j: nat)
    requires ParseFile(num, text).Ok? && Groups(num, CleanLines(text)).Ok?
    requires i < |Groups(num, CleanLines(text)).value|
    requires j < |Groups(num, CleanLines(text)).value[i].signals|
    ensures var before, after := Groups(num, CleanLines(text)).value, ParseFile(num, text).value;
            && |after| == |before| && |after[i].signals| == |before[i].signals|
            && (after[i].signals[j].definition.isFloat
                <==> exists v :: v in ValueTypes(CleanLines(text)) && Marks(v, before[i], j))
            && after[i].signals[j].definition.(isFloat := false) == before[i].signals[j].definition
            && (after[i].signals[j].definition.isFloat ==>
                  after[i].signals[j].definition.length == 32 || after[i].signals[j].definition.length == 64)
  {
    hide Groups, CleanLines, Compile, ValueTypes, Names, FirstNamed;
    var lines := CleanLines(text);
    var ms := Groups(num, lines).value;
    GroupsCompiled(num, lines);
    assert ms[i] in ms;
    assert ParseFile(num, text).value[i] == Marked(ms[i], ValueTypes(lines));
    if v :| v in ValueTypes(lines) && Marks(v, ms[i], j) {
      assert !Misplaced(v, ms[i]);
    }
  }

  /**
   The file is rejected exactly when a malformed record is read or a value type marks
   a signal of the wrong width.
   */
  lemma FileFailsExactlyWhen(num: NumberText, text: string)
    ensures var lines := CleanLines(text);
            ParseFile(num, text).Err?
            <==> (exists j :: 0 <= j < |lines| && Malformed(num, lines[j]) && Reads(lines, j))
                 || (Groups(num, lines).Ok?
                     && exists v, m :: v in ValueTypes(lines) && m in Groups(num, lines).value && Misplaced(v, m))
    ensures ParseFile(num, text).Err? ==> ParseFile(num, text) == Err(ParseError)
  {
    hide Groups, CleanLines, Malformed, Reads, Misplaced, ValueTypes, StartsTight;
    CleanLinesStartTight(text);
    GroupingFailsExactlyWhen(num, CleanLines(text));
  }

  // ----- malformed records that are dropped unread

  /** A malformed SG_ record before any message record. */
  lemma StraySignalIsDropped(num: NumberText)
    ensures Malformed(num, "SG_ x") && !Reads(["SG_ x"], 0)
    ensures ParseFile(num, "SG_ x") == Ok([])
  {
    hide ParseSignal, ParseMessage, TakeToken;
    var line := "SG_ x";
    SignalWithoutColonFails(num, line, " x");
    assert line[0] == 'S' && line[4] == 'x';
    LoneLine(num, line);
  }

  /** A message record that is nothing but its keyword. */
  lemma BareKeywordIsDropped(num: NumberText)
    ensures Malformed(num, "BO_") && !Reads(["BO_"], 0)
    ensures ParseFile(num, "BO_") == Ok([])
  {
    hide ParseSignal, ParseMessage, TakeToken;
    var line := "BO_";
    BareHeaderFails();
    LoneLine(num, line);
  }

  /** After a message, an SG_ record with a tab where the space should be. */
  lemma TabbedKeywordIsDropped(num: NumberText)
    ensures Malformed(num, "SG_\tx") && !Reads(["BO_ 1 M: 8 X", "SG_\tx"], 1)
    ensures ParseFile(num, "BO_ 1 M: 8 X\nSG_\tx") == Ok([Message(StandardId(1), "M", 8, [])])
  {
    hide ParseSignal, ParseMessage, TakeToken, CleanLines, Groups, ValueTypes;
    var header, line := "BO_ 1 M: 8 X", "SG_\tx";
    SignalWithoutColonFails(num, line, "\tx");
    assert header + "\n" + line == "BO_ 1 M: 8 X\nSG_\tx";
    TwoLines(header, line);
    ShortHeaderParses();
    assert line[0] == 'S' && line[3] == '\t';
    HeaderAlone(num, header, line);
    var m := EmptyMessage(ParseMessage(header).value);
    assert Marked(m, []) == m && !AnyMisplaced([m], []);
    assert MarkFloats([m], []) == Ok([m]) by {
      assert MarkFloats([m], []).value == [m];
    }
  }

  /** A clean line that is no record the loop reads gives no message. */
  lemma LoneLine(num: NumberText, line: string)
    requires line != [] && !IsTrimmed(line[0]) && !IsTrimmed(line[|line| - 1]) && '\n' !in line
    requires !IsMessageLine(line) && !IsValueTypeLine(line)
    ensures ParseFile(num, line) == Ok([])
  {
    hide ParseSignal, ParseMessage, Trim, IsMessageLine, IsSignalLine, IsValueTypeLine;
    TrimOfTight(line);
    assert LengthUntil(line, '\n') == |line|;
    assert CleanLines(line) == [line];
    assert [line][1..] == [];
    assert Groups(num, []) == Ok([]);
    assert Groups(num, [line]) == Ok([]);
    assert !AnyMisplaced([], ValueTypes([line]));
    assert ParseFile(num, line).value == [];
  }

  lemma SignalWithoutColonFails(num: NumberText, line: string, rest: string)
    requires line == "SG_" + rest && (rest == " x" || rest == "\tx")
    ensures IsSignalRecord(line) && ParseSignal(num, line).Err?
  {
    hide ParseU32, TakeToken, Blankless;
    KeywordIsBlankless();
    TokenOf("SG_", rest);
    LastWord(rest);
    NoToken();
  }

  lemma LastWord(rest: string)
    requires rest == " x" || rest == "\tx"
    ensures TakeToken(rest) == Piece("x", "")
  {
    hide WordLength;
    WordLengthOf("x", "");
    assert "x" + "" == "x" && rest[1..] == "x" && SkipBlanks(rest) == "x";
  }

  lemma NoToken()
    ensures TakeToken("") == Piece("", "")
  {
  }

  lemma BareHeaderFails()
    ensures IsMessageRecord("BO_") && ParseMessage("BO_").Err?
  {
    hide TakeToken;
    assert "BO_" + "" == "BO_";
    TokenOf("BO_", "");
    NoToken();
  }

  lemma TwoLines(first: string, second: string)
    requires first == "BO_ 1 M: 8 X" && second == "SG_\tx"
    ensures CleanLines(first + "\n" + second) == [first, second]
  {
    hide Trim;
    LengthUntilOf(first, '\n', second);
    var text := first + ['\n'] + second;
    assert text[..|first|] == first && text[|first| + 1..] == second;
    TrimOfTight(first);
    TrimOfTight(second);
    assert LengthUntil(second, '\n') == |second|;
  }

  lemma ShortHeaderParses()
    ensures ParseMessage("BO_ 1 M: 8 X") == Ok(Header(StandardId(1), "M", 8))
  {
    var h := Header(StandardId(1), "M", 8);
    assert Decimal(1) == "1" && Decimal(8) == "8" && RawOfId(h.id) == 1;
    assert PrintHeader(h, "X") == "BO_ 1 M: 8 X";
    HeaderRoundTrip(h, "X");
  }

  /** A message line followed by a line the loop does not read. */
  lemma HeaderAlone(num: NumberText, header: string, line: string)
    requires IsMessageLine(header) && ParseMessage(header).Ok?
    requires !IsMessageLine(line) && !IsSignalLine(line) && !IsValueTypeLine(line)
    ensures Groups(num, [header, line]) == Ok([EmptyMessage(ParseMessage(header).value)])
    ensures ValueTypes([header, line]) == []
  {
    hide ParseMessage, ParseSignal, IsMessageLine, IsSignalLine, IsValueTypeLine;
    var lines := [header, line];
    assert lines[1..] == [line] && [line][1..] == [];
    assert Body([]) == [] && Body([line]) == [line];
    assert lines[2..] == [] && Groups(num, []) == Ok([]);
    assert SignalsOf(num, []) == Ok([]) && SignalsOf(num, [line]) == Ok([]);
    var m := EmptyMessage(ParseMessage(header).value);
    assert m.(signals := []) == m && [m] + [] == [m];
    assert Groups(num, lines[1 + |Body(lines[1..])|..]) == Ok([]);
    assert ValueTypes([]) == [] && ValueTypes([line]) == [];
  }
}
