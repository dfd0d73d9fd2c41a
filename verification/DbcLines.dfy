/** How a text falls into lines, and which of them the parser looks at. */
module DbcLines {
  import opened CanTypes
  import opened DbcText
  import opened DbcRecords
  import opened DbcFile
  import opened DbcLexing

  /** A text without a newline is one line, trimmed. */
  lemma LoneLineIsTrimmed(s: string)
    requires '\n' !in s
    ensures CleanLines(s) == [Trim(s)]
  {
    hide Trim;
  }

  lemma FirstLine(line: string, rest: string)
    requires '\n' !in line
    ensures CleanLines(line + "\n" + rest) == [Trim(line)] + CleanLines(rest)
  {
    hide Trim, LengthUntil;
    var text := line + "\n" + rest;
    LengthUntilOf(line, '\n', rest);
    assert text[..|line|] == line && text[|line| + 1..] == rest;
  }

  /** The lines of two texts joined by a newline are the lines of the one and then of the other. */
  lemma {:induction false} LinesOfJoin(a: string, b: string)
    ensures CleanLines(a + "\n" + b) == CleanLines(a) + CleanLines(b)
    decreases |a|
  {
    hide Trim, CleanLines, LengthUntil;
    var n := LengthUntil(a, '\n');
    if n == |a| {
      assert a[..n] == a;
      LoneLineIsTrimmed(a);
      FirstLine(a, b);
    } else {
      var line, rest := a[..n], a[n + 1..];
      assert a == line + "\n" + rest;
      assert a + "\n" + b == line + "\n" + (rest + "\n" + b);
      FirstLine(line, rest);
      FirstLine(line, rest + "\n" + b);
      LinesOfJoin(rest, b);
    }
  }

  lemma TrimEndsInReturn(s: string)
    ensures Trim(s + "\r") == Trim(s)
  {
    hide Trim;
    var a, b := TrimShape(s);
    assert s + "\r" == a + Trim(s) + (b + "\r");
    TrimReads(a, Trim(s), b + "\r");
  }

  lemma {:induction false} LinesEndInReturn(a: string)
    ensures CleanLines(a + "\r") == CleanLines(a)
    decreases |a|
  {
    hide Trim;
    var n := LengthUntil(a, '\n');
    if n == |a| {
      TrimEndsInReturn(a);
      LoneLineIsTrimmed(a + "\r");
    } else {
      var rest := a[n + 1..];
      assert a == a[..n] + "\n" + rest;
      assert a + "\r" == a[..n] + "\n" + (rest + "\r");
      LinesOfJoin(a[..n], rest);
      LinesOfJoin(a[..n], rest + "\r");
      LinesEndInReturn(rest);
    }
  }

  // ----- the lines that matter

  /** The lines that open a message or add a signal. */
  function Kept(lines: seq<string>): seq<string> {
    if lines == [] then []
    else (if IsMessageLine(lines[0]) || IsSignalLine(lines[0]) then [lines[0]] else []) + Kept(lines[1..])
  }

  lemma {:induction false} KeptOfJoin(a: seq<string>, b: seq<string>)
    ensures Kept(a + b) == Kept(a) + Kept(b)
  {
    hide IsMessageLine, IsSignalLine;
    if a == [] {
      assert a + b == b;
    } else {
      assert (a + b)[1..] == a[1..] + b;
      KeptOfJoin(a[1..], b);
    }
  }

  lemma KeptStep(lines: seq<string>)
    requires lines != []
    ensures IsMessageLine(lines[0]) || IsSignalLine(lines[0]) ==>
              Kept(lines) != [] && Kept(lines)[0] == lines[0] && Kept(lines)[1..] == Kept(lines[1..])
    ensures !IsMessageLine(lines[0]) && !IsSignalLine(lines[0]) ==> Kept(lines) == Kept(lines[1..])
  {
    hide IsMessageLine, IsSignalLine;
  }

  lemma {:induction false} SignalsOfKept(num: NumberText, lines: seq<string>)
    requires forall i :: 0 <= i < |lines| ==> !IsMessageLine(lines[i])
    ensures SignalsOf(num, Kept(lines)) == SignalsOf(num, lines)
  {
    hide ParseSignal, IsMessageLine, IsSignalLine, EntryOf;
    if lines != [] {
      SignalsOfKept(num, lines[1..]);
      KeptStep(lines);
    }
  }

  lemma {:induction false} BodyOfKept(lines: seq<string>)
    ensures Body(Kept(lines)) == Kept(Body(lines))
    ensures Kept(lines)[|Body(Kept(lines))|..] == Kept(lines[|Body(lines)|..])
  {
    hide IsMessageLine, IsSignalLine;
    if lines != [] && !IsMessageLine(lines[0]) {
      var rest := lines[1..];
      BodyOfKept(rest);
      assert Body(lines) == [lines[0]] + Body(rest) && Body(lines)[1..] == Body(rest);
      assert lines[|Body(lines)|..] == rest[|Body(rest)|..];
      if IsSignalLine(lines[0]) {
        assert Kept(lines) == [lines[0]] + Kept(rest) && Kept(lines)[1..] == Kept(rest);
        assert Kept(lines)[|Body(Kept(lines))|..] == Kept(rest)[|Body(Kept(rest))|..];
      } else {
        assert Kept(lines) == Kept(rest);
      }
    }
  }

  /** Grouping sees the BO_ and SG_ lines only. */
  lemma {:induction false} GroupsOfKept(num: NumberText, lines: seq<string>)
    ensures Groups(num, Kept(lines)) == Groups(num, lines)
    decreases |lines|
  {
    hide ParseMessage, ParseSignal, SignalsOf, IsMessageLine, IsSignalLine, EntryOf, Kept, Body;
    if lines == [] {
      assert Kept([]) == [] by { NothingKept(); }
    } else {
      var rest := lines[1..];
      KeptStep(lines);
      if IsMessageLine(lines[0]) {
        var body := Body(rest);
        BodyOfKept(rest);
        SignalsOfKept(num, body);
        GroupsOfKept(num, rest[|body|..]);
        assert lines[1 + |body|..] == rest[|body|..];
        assert Kept(lines)[1 + |Body(Kept(rest))|..] == Kept(rest)[|Body(Kept(rest))|..];
      } else {
        GroupsOfKept(num, rest);
      }
    }
  }

  lemma NothingKept()
    ensures Kept([]) == []
  {
  }

  /** So two texts with the same BO_ and SG_ lines and the same value types parse alike. */
  lemma OtherLinesIgnored(num: NumberText, a: string, b: string)
    requires Kept(CleanLines(a)) == Kept(CleanLines(b))
    requires ValueTypes(CleanLines(a)) == ValueTypes(CleanLines(b))
    ensures ParseFile(num, a) == ParseFile(num, b)
  {
    hide Groups, CleanLines, MarkFloats, Kept, ValueTypes;
    GroupsOfKept(num, CleanLines(a));
    GroupsOfKept(num, CleanLines(b));
  }

  /** A line that is no BO_, SG_ or SIG_VALTYPE_ line, wherever it stands, changes nothing. */
  lemma InsertedLineIgnored(num: NumberText, a: string, line: string, b: string)
    requires '\n' !in line
    requires !IsMessageLine(Trim(line)) && !IsSignalLine(Trim(line)) && !IsValueTypeLine(Trim(line))
    ensures ParseFile(num, a + "\n" + line + "\n" + b) == ParseFile(num, a + "\n" + b)
  {
    hide CleanLines, Trim, ParseFile, IsMessageLine, IsSignalLine, IsValueTypeLine;
    var one := [Trim(line)];
    LoneLineIsTrimmed(line);
    LinesOfJoin(a, b);
    LinesOfJoin(line, b);
    LinesOfJoin(a, line + "\n" + b);
    assert a + "\n" + line + "\n" + b == a + "\n" + (line + "\n" + b);
    assert one[1..] == [] && Kept([]) == [] && ValueTypes([]) == [];
    assert Kept(one) == [] && ValueTypes(one) == [];
    KeptOfJoin(one, CleanLines(b));
    KeptOfJoin(CleanLines(a), one + CleanLines(b));
    KeptOfJoin(CleanLines(a), CleanLines(b));
    ValueTypesOfJoin(one, CleanLines(b));
    ValueTypesOfJoin(CleanLines(a), one + CleanLines(b));
    ValueTypesOfJoin(CleanLines(a), CleanLines(b));
    assert [] + Kept(CleanLines(b)) == Kept(CleanLines(b));
    assert [] + ValueTypes(CleanLines(b)) == ValueTypes(CleanLines(b));
    OtherLinesIgnored(num, a + "\n" + line + "\n" + b, a + "\n" + b);
  }

  /** Nor does a newline at the end of the file. */
  lemma FinalNewlineIgnored(num: NumberText, a: string)
    ensures ParseFile(num, a + "\n") == ParseFile(num, a)
  {
    hide CleanLines, ParseFile;
    LinesOfJoin(a, "");
    assert a + "\n" + "" == a + "\n";
    LoneLineIsTrimmed("");
    TrimOfTight("");
    assert Kept([""]) == [] && ValueTypes([""]) == [] by { EmptyLineIsNothing(); }
    KeptOfJoin(CleanLines(a), [""]);
    ValueTypesOfJoin(CleanLines(a), [""]);
    assert Kept(CleanLines(a)) + [] == Kept(CleanLines(a));
    assert ValueTypes(CleanLines(a)) + [] == ValueTypes(CleanLines(a));
    OtherLinesIgnored(num, a + "\n", a);
  }

  lemma EmptyLineIsNothing()
    ensures Kept([""]) == [] && ValueTypes([""]) == []
  {
    assert [""][1..] == [];
    assert Kept([]) == [] && ValueTypes([]) == [];
    assert ValueTypeIn("") == None;
  }

  /** Lines that end in a carriage return and a newline are read as if they ended in a newline. */
  lemma CarriageReturnIgnored(num: NumberText, a: string, b: string)
    ensures ParseFile(num, a + "\r\n" + b) == ParseFile(num, a + "\n" + b)
  {
    hide CleanLines, ParseFile;
    assert a + "\r\n" + b == (a + "\r") + "\n" + b;
    LinesOfJoin(a + "\r", b);
    LinesOfJoin(a, b);
    LinesEndInReturn(a);
    OtherLinesIgnored(num, a + "\r\n" + b, a + "\n" + b);
  }

  // ----- the value types

  lemma {:induction false} ValueTypesOfJoin(a: seq<string>, b: seq<string>)
    ensures ValueTypes(a + b) == ValueTypes(a) + ValueTypes(b)
  {
    hide ValueTypeIn;
    if a == [] {
      assert a + b == b;
    } else {
      assert (a + b)[1..] == a[1..] + b;
      ValueTypesOfJoin(a[1..], b);
    }
  }

  /** The value types of a file are those of its SIG_VALTYPE_ lines. */
  lemma {:induction false} ValueTypesAre(lines: seq<string>, v: ValueType)
    ensures v in ValueTypes(lines)
            <==> exists i :: 0 <= i < |lines| && IsValueTypeLine(lines[i]) && ParseValueType(lines[i]) == Some(v)
  {
    hide ParseValueType, IsValueTypeLine, IsMessageLine, IsSignalLine;
    if lines != [] {
      ValueTypesAre(lines[1..], v);
      OtherKeyword(lines[0]);
      assert forall i :: 1 <= i < |lines| ==> lines[i] == lines[1..][i - 1];
      assert forall i :: 0 <= i < |lines| - 1 ==> lines[i + 1] == lines[1..][i];
    }
  }

  lemma OtherKeyword(line: string)
    ensures IsValueTypeLine(line) ==> !IsMessageLine(line) && !IsSignalLine(line)
  {
    if IsValueTypeLine(line) {
      assert line[0] == 'S' && line[1] == 'I';
    }
  }
}
