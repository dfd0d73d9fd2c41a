/**
 The lines the DBC parsers accept, written as a grammar: every accepted line is of the
 stated form, every line of that form is accepted, and the form says what is read.
 */
module DbcGrammar {
  import opened Words
  import opened CanTypes
  import opened Packing
  import opened Signals
  import opened DbcText
  import opened DbcRecords
  import opened DbcFile
  import opened DbcLexing

  /** Blanks that separate two words. */
  predicate Gap(s: string) {
    s != "" && Blanks(s)
  }

  // ----- the SG_ line: keyword, name and multiplexing marker

  /** The marker of a signal: none, "M", "m<N>" or "m<N>M", and the gap after it. */
  datatype Marker = NoMarker | SelectorMarker(gap: string) | ValueMarker(digits: string, extended: bool, gap: string)
  {
    function Text(): string {
      match this
      case NoMarker => ""
      case SelectorMarker(gap) => "M" + gap
      case ValueMarker(digits, extended, gap) => "m" + digits + (if extended then "M" else "") + gap
    }

    ghost predicate Reads(role: MultiplexRole, mux: u32) {
      match this
      case NoMarker => role == NoMultiplex && mux == 0
      case SelectorMarker(gap) => Gap(gap) && role == Selector && mux == 0
      case ValueMarker(digits, extended, gap) =>
        Gap(gap) && NoBlank(digits) && role == Multiplexed && Writes(digits, mux)
    }
  }

  predicate NoBlank(s: string) {
    forall i :: 0 <= i < |s| ==> s[i] != ' ' && s[i] != '\t'
  }

  lemma WritesHasDigit(text: string, n: u32)
    requires Writes(text, n)
    ensures text != "" && text[|text| - 1] != 'M'
  {
    hide Decimal;
    var a, z, b :| Trimmings(a) && Zeros(z) && Trimmings(b) && text == a + (z + Decimal(n)) + b;
    if b == "" {
      assert text[|text| - 1] == Decimal(n)[|Decimal(n)| - 1];
    } else {
      assert text[|text| - 1] == b[|b| - 1];
    }
  }

  /** The token of an "m<N>" or "m<N>M" marker. */
  function ValueToken(digits: string, extended: bool): string {
    "m" + digits + (if extended then "M" else "")
  }

  lemma ValueTokenReads(digits: string, extended: bool, n: u32)
    requires NoBlank(digits) && Writes(digits, n)
    ensures var token := ValueToken(digits, extended);
            && Word(token) && |token| >= 2 && token[0] == 'm'
            && MuxDigits(token) == digits && ParseU32(MuxDigits(token)) == Some(n)
  {
    hide Writes, ParseU32;
    WritesHasDigit(digits, n);
    ParseU32ExactlyWhen(digits, n);
    var token := ValueToken(digits, extended);
    if extended {
      assert token[1..|token| - 1] == digits;
    } else {
      assert token[|token| - 1] == digits[|digits| - 1];
      assert token[1..] == digits;
    }
  }

  lemma KeywordsAreWords()
    ensures Word("SG_") && Word("BO_") && Word(":") && Word("M")
  {
  }

  lemma GapIsEdge(gap: string, rest: string)
    requires Gap(gap)
    ensures Blanks(gap) && Edge(gap + rest)
  {
    assert (gap + rest)[0] == gap[0];
  }

  /** A colon, after a gap, is the next token. */
  lemma ColonReads(gap: string, rest: string)
    requires Blanks(gap) && Edge(rest)
    ensures TakeToken(gap + (":" + rest)) == Piece(":", rest)
  {
    hide TakeToken;
    assert gap + (":" + rest) == gap + ":" + rest;
    TokenReads(gap, ":", rest);
  }

  /** A marker word, a gap and a colon. */
  lemma MarkerWordsRead(nameGap: string, token: string, gap: string, rest: string)
    requires Gap(nameGap) && Word(token) && Gap(gap) && Edge(rest)
    ensures var marker := TakeToken(nameGap + (token + gap) + ":" + rest);
            marker.text == token && TakeToken(marker.rest) == Piece(":", rest)
  {
    hide TakeToken, Word;
    GapIsEdge(gap, ":" + rest);
    assert nameGap + (token + gap) + ":" + rest == nameGap + token + (gap + (":" + rest));
    TokenReads(nameGap, token, gap + (":" + rest));
    ColonReads(gap, rest);
  }

  lemma MarkerReads(name: string, nameGap: string, marker: Marker, role: MultiplexRole, mux: u32, rest: string)
    requires Gap(nameGap) && marker.Reads(role, mux) && Edge(rest)
    ensures ParseMarker(name, nameGap + marker.Text() + ":" + rest) == Ok(Head(name, role, mux, rest))
  {
    hide TakeToken, ParseU32, MuxDigits, Writes, Word, Blanks, Edge;
    KeywordsAreWords();
    match marker
    case NoMarker =>
      assert nameGap + "" + ":" + rest == nameGap + (":" + rest);
      ColonReads(nameGap, rest);
    case SelectorMarker(gap) =>
      MarkerWordsRead(nameGap, "M", gap, rest);
    case ValueMarker(digits, extended, gap) =>
      ValueTokenReads(digits, extended, mux);
      assert marker.Text() == ValueToken(digits, extended) + gap;
      MarkerWordsRead(nameGap, ValueToken(digits, extended), gap, rest);
  }

  /** A token that follows another one comes after a gap. */
  lemma TokenAfter(s: string) returns (gap: string)
    requires Edge(s) && TakeToken(s).text != ""
    ensures var t := TakeToken(s);
            Gap(gap) && Word(t.text) && Edge(t.rest) && s == gap + t.text + t.rest
  {
    hide TakeToken;
    gap := TokenShape(s);
    var t := TakeToken(s);
    assert s == gap + (t.text + t.rest);
    assert s[|gap|] == (t.text + t.rest)[0] == t.text[0];
  }

  lemma ValueTokenShape(token: string, n: u32) returns (digits: string, extended: bool)
    requires Word(token) && |token| >= 2 && token[0] == 'm' && ParseU32(MuxDigits(token)) == Some(n)
    ensures token == ValueToken(digits, extended) && NoBlank(digits) && Writes(digits, n)
  {
    hide Writes, ParseU32;
    digits, extended := MuxDigits(token), token[|token| - 1] == 'M';
    ParseU32ExactlyWhen(digits, n);
    assert token == ValueToken(digits, extended);
    assert forall i :: 0 <= i < |digits| ==> digits[i] == token[i + 1];
  }

  lemma MarkerShape(name: string, s: string) returns (nameGap: string, marker: Marker)
    requires Edge(s) && ParseMarker(name, s).Ok?
    ensures var head := ParseMarker(name, s).value;
            && Gap(nameGap) && marker.Reads(head.role, head.mux) && Edge(head.rest) && head.name == name
            && s == nameGap + marker.Text() + ":" + head.rest
  {
    hide TakeToken, ParseU32, MuxDigits, Writes, Word, Blanks, Edge, Gap, Marker.Text, Marker.Reads;
    var head := ParseMarker(name, s).value;
    var token := TakeToken(s);
    nameGap := TokenAfter(s);
    if head.role == NoMultiplex {
      marker := NoMarker;
      NoMarkerReads();
      assert nameGap + "" + ":" + head.rest == nameGap + ":" + head.rest;
    } else {
      var gap := TokenAfter(token.rest);
      marker := MarkerOf(token.text, gap, head);
      assert nameGap + (token.text + gap) + ":" + head.rest == nameGap + token.text + (gap + ":" + head.rest);
    }
  }

  lemma NoMarkerReads()
    ensures NoMarker.Text() == "" && NoMarker.Reads(NoMultiplex, 0)
  {
  }

  lemma MarkerOf(token: string, gap: string, head: Head) returns (marker: Marker)
    requires Gap(gap) && Word(token)
    requires (token == "M" && head.role == Selector && head.mux == 0)
             || (|token| >= 2 && token[0] == 'm' && head.role == Multiplexed
                 && ParseU32(MuxDigits(token)) == Some(head.mux))
    ensures marker.Text() == token + gap && marker.Reads(head.role, head.mux)
  {
    hide ParseU32, MuxDigits, Writes, Word, Gap;
    if head.role == Selector {
      marker := SelectorMarker(gap);
    } else {
      var digits, extended := ValueTokenShape(token, head.mux);
      marker := ValueMarker(digits, extended, gap);
    }
  }

  /** <blanks> SG_ <gap> <name> <gap> <marker> : <what follows, after a blank> */
  datatype HeadForm = HeadForm(indent: string, gap: string, nameGap: string, marker: Marker)
  {
    function Text(head: Head): string {
      indent + "SG_" + gap + head.name + nameGap + marker.Text() + ":" + head.rest
    }

    ghost predicate Reads(head: Head) {
      && Blanks(indent) && Gap(gap) && Gap(nameGap)
      && Word(head.name) && marker.Reads(head.role, head.mux) && Edge(head.rest)
    }
  }

  /** A line of the form is read as its name, role and value. */
  lemma HeadReads(form: HeadForm, head: Head)
    requires form.Reads(head)
    ensures ParseHead(form.Text(head)) == Ok(head)
  {
    hide TakeToken, ParseMarker, Word, Blanks, Edge, Gap, Marker.Text, Marker.Reads;
    var tail := form.marker.Text() + ":" + head.rest;
    HeadWords(form.indent, form.gap, head.name, form.nameGap, tail);
    HeadTextSplits(form, head);
    MarkerReads(head.name, form.nameGap, form.marker, head.role, head.mux, head.rest);
  }

  lemma HeadTextSplits(form: HeadForm, head: Head)
    ensures var tail := form.marker.Text() + ":" + head.rest;
            && form.Text(head) == form.indent + "SG_" + (form.gap + head.name + (form.nameGap + tail))
            && form.nameGap + tail == form.nameGap + form.marker.Text() + ":" + head.rest
  {
    hide Marker.Text;
    var marker, tail := form.marker.Text(), form.marker.Text() + ":" + head.rest;
    assert form.nameGap + marker + ":" + head.rest == form.nameGap + tail;
    assert form.Text(head) == form.indent + "SG_" + (form.gap + head.name + (form.nameGap + tail));
  }

  lemma HeadWords(indent: string, gap: string, name: string, nameGap: string, tail: string)
    requires Blanks(indent) && Gap(gap) && Word(name) && Gap(nameGap)
    ensures var afterName := nameGap + tail;
            && TakeToken(indent + "SG_" + (gap + name + afterName)) == Piece("SG_", gap + name + afterName)
            && TakeToken(gap + name + afterName) == Piece(name, afterName) && name != ""
  {
    hide TakeToken;
    var afterName := nameGap + tail;
    KeywordsAreWords();
    GapIsEdge(gap, name + afterName);
    assert gap + (name + afterName) == gap + name + afterName;
    TokenReads(indent, "SG_", gap + name + afterName);
    GapIsEdge(nameGap, tail);
    TokenReads(gap, name, afterName);
  }

  /** And every accepted head is of the form. */
  lemma HeadShape(line: string) returns (form: HeadForm)
    requires ParseHead(line).Ok?
    ensures form.Reads(ParseHead(line).value) && form.Text(ParseHead(line).value) == line
  {
    hide TakeToken, ParseMarker, Word, Blanks, Edge;
    var head := ParseHead(line).value;
    var keyword := TakeToken(line);
    var name := TakeToken(keyword.rest);
    var indent := TokenShape(line);
    var gap := TokenAfter(keyword.rest);
    var nameGap, marker := MarkerShape(name.text, name.rest);
    form := HeadForm(indent, gap, nameGap, marker);
    assert form.Text(head) == indent + "SG_" + (gap + name.text + name.rest);
  }

  /** The extended marker "m<N>M" is read as the plain one, whatever the number. */
  lemma ExtendedMarkerReads(name: string, n: u32, extended: bool, gap: string, rest: string)
    requires Word(name) && Gap(gap) && Edge(rest)
    ensures ParseHead("SG_ " + name + " m" + Decimal(n) + (if extended then "M" else "") + gap + ":" + rest)
            == Ok(Head(name, Multiplexed, n, rest))
  {
    hide ParseHead, Decimal, Word, Edge, Writes;
    var head := Head(name, Multiplexed, n, rest);
    var form := HeadForm("", " ", " ", ValueMarker(Decimal(n), extended, gap));
    PrintedWrites(n);
    HeadReads(form, head);
    assert form.Text(head)
        == "SG_ " + name + " m" + Decimal(n) + (if extended then "M" else "") + gap + ":" + rest;
  }

  lemma PrintedWrites(n: u32)
    ensures Writes(Decimal(n), n) && NoBlank(Decimal(n))
  {
    hide Decimal;
    assert Trimmings("") && Zeros("") && Decimal(n) == "" + ("" + Decimal(n)) + "";
  }

  // ----- the SG_ line: bit layout and scaling

  /** <start>|<length>@<order><sign>, and whatever else is in the word. */
  datatype LayoutForm = LayoutForm(start: string, length: string, order: char, sign: char, extra: string)
  {
    function Text(): string {
      start + "|" + length + "@" + [order, sign] + extra
    }

    ghost predicate Reads(bits: Bits) {
      && Writes(start, bits.start) && Writes(length, bits.length) && 1 <= bits.length <= 64
      && ((order == '1' && bits.order == LittleEndian) || (order == '0' && bits.order == BigEndian))
      && ((sign == '-' && bits.isSigned) || (sign == '+' && !bits.isSigned))
    }
  }

  lemma WritesLacks(text: string, n: u32, d: char)
    requires Writes(text, n) && !IsDigit(d) && !Loose(d)
    ensures d !in text
  {
    hide Decimal;
    var a, z, b :| Trimmings(a) && Zeros(z) && Trimmings(b) && text == a + (z + Decimal(n)) + b;
    DigitsOnly(z + Decimal(n));
  }

  lemma DigitsOnly(s: string)
    ensures AllDigits(s) ==> forall c :: c in s ==> IsDigit(c)
  {
  }

  lemma LayoutReads(form: LayoutForm, bits: Bits)
    requires form.Reads(bits)
    ensures ParseLayout(form.Text()) == Ok(bits)
  {
    hide ParseU32, Writes, LengthUntil;
    var start, length, tail := form.start, form.length, [form.order, form.sign] + form.extra;
    var layout := form.Text();
    ParseU32ExactlyWhen(start, bits.start);
    ParseU32ExactlyWhen(length, bits.length);
    WritesLacks(start, bits.start, '|');
    WritesLacks(start, bits.start, '@');
    WritesLacks(length, bits.length, '@');
    assert layout == start + ['|'] + (length + "@" + tail);
    LengthUntilOf(start, '|', length + "@" + tail);
    assert layout == (start + "|" + length) + ['@'] + tail;
    LengthUntilOf(start + "|" + length, '@', tail);
    assert layout[..|start|] == start && layout[|start| + 1..|start| + 1 + |length|] == length;
    assert layout[|start| + |length| + 2] == tail[0] && layout[|start| + |length| + 3] == tail[1];
  }

  lemma LayoutShape(layout: string) returns (form: LayoutForm)
    requires ParseLayout(layout).Ok?
    ensures form.Text() == layout && form.Reads(ParseLayout(layout).value)
  {
    hide ParseU32, Writes, LengthUntil;
    var bits := ParseLayout(layout).value;
    var bar, at := LengthUntil(layout, '|'), LengthUntil(layout, '@');
    form := LayoutForm(layout[..bar], layout[bar + 1..at], layout[at + 1], layout[at + 2], layout[at + 3..]);
    ParseU32ExactlyWhen(form.start, bits.start);
    ParseU32ExactlyWhen(form.length, bits.length);
    assert layout[bar] == '|' && layout[at] == '@';
    assert form.Text() == layout;
  }

  /** (<factor>,<offset>), after blanks. */
  datatype ScalingForm = ScalingForm(gap: string, factor: string, offset: string)
  {
    function Text(rest: string): string {
      gap + "(" + factor + "," + offset + ")" + rest
    }

    ghost predicate Reads(num: NumberText, scaling: Scaling) {
      && Blanks(gap) && ',' !in factor && ')' !in offset
      && ParseDouble(num, factor) == Some(Finite(scaling.factor))
      && ParseDouble(num, offset) == Some(Finite(scaling.offset))
    }
  }

  lemma ScalingReads(num: NumberText, form: ScalingForm, scaling: Scaling)
    requires form.Reads(num, scaling)
    ensures ParseScaling(num, form.Text(scaling.rest)) == Ok(scaling)
  {
    hide TakeUntil, NextIs, AfterConsume, ParseDouble;
    var afterOffset := [')'] + scaling.rest;
    var afterFactor := [','] + (form.offset + afterOffset);
    var text := form.Text(scaling.rest);
    assert text == form.gap + ['('] + (form.factor + afterFactor);
    ConsumeReads(form.gap, '(', form.factor + afterFactor);
    UntilReads(form.factor, ',', afterFactor);
    assert afterFactor == "" + [','] + (form.offset + afterOffset);
    ConsumeReads("", ',', form.offset + afterOffset);
    UntilReads(form.offset, ')', afterOffset);
    assert afterOffset == "" + [')'] + scaling.rest;
    ConsumeReads("", ')', scaling.rest);
  }

  /** A delimiter that Until stopped at is consumed at once. */
  lemma ConsumeStop(s: string, d: char)
    requires d != ' ' && d != '\t' && (s == "" || s[0] == d)
    ensures NextIs(s, d) <==> s != ""
    ensures s != "" ==> s == [d] + AfterConsume(s, d)
    ensures s == "" ==> AfterConsume(s, d) == ""
  {
    hide SkipBlanks;
    if s == "" {
      ConsumeMisses("", d, "");
      assert "" + "" == "";
    } else {
      assert s == "" + [d] + s[1..];
      ConsumeReads("", d, s[1..]);
    }
  }

  lemma ScalingShape(num: NumberText, s: string) returns (form: ScalingForm)
    requires ParseScaling(num, s).Ok?
    ensures form.Reads(num, ParseScaling(num, s).value) && form.Text(ParseScaling(num, s).value.rest) == s
  {
    hide TakeUntil, NextIs, AfterConsume, ParseDouble;
    var scaling := ParseScaling(num, s).value;
    var gap := ConsumeShape(s, '(');
    var factor := TakeUntil(AfterConsume(s, '('), ',');
    UntilShape(AfterConsume(s, '('), ',');
    ConsumeStop(factor.rest, ',');
    var offset := TakeUntil(AfterConsume(factor.rest, ','), ')');
    UntilShape(AfterConsume(factor.rest, ','), ')');
    ConsumeStop(offset.rest, ')');
    form := ScalingForm(gap, factor.text, offset.text);
    assert form.Text(scaling.rest) == gap + "(" + (factor.text + ("," + (offset.text + (")" + scaling.rest))));
  }

  // ----- the SG_ line as a whole

  /** An SG_ line: head, gap, layout word, gap, scaling, and the text the range and the unit are looked for in. */
  datatype SignalForm = SignalForm(
    headForm: HeadForm, head: Head, gap: string, layout: LayoutForm, bits: Bits,
    scalingForm: ScalingForm, scaling: Scaling)
  {
    ghost predicate Reads(num: NumberText, line: string) {
      && line == headForm.Text(head) && headForm.Reads(head)
      && head.rest == gap + layout.Text() + scalingForm.Text(scaling.rest)
      && Gap(gap) && Word(layout.Text()) && layout.Reads(bits)
      && Gap(scalingForm.gap) && scalingForm.Reads(num, scaling)
    }

    function Signal(num: NumberText): Signal {
      var range := ParseRange(num, scaling.rest);
      SignalOf(head, bits, scaling, range, ParseUnit(range.rest))
    }
  }

  /** A line of the form is read as what the form holds. */
  lemma SignalReads(num: NumberText, line: string, form: SignalForm)
    requires form.Reads(num, line)
    ensures ParseSignal(num, line) == Ok(form.Signal(num))
  {
    hide ParseHead, ParseLayout, ParseScaling, ParseRange, ParseUnit, TakeToken, Word, Edge, Gap;
    hide HeadForm.Text, HeadForm.Reads, LayoutForm.Text, LayoutForm.Reads, ScalingForm.Reads, ScalingForm.Text;
    HeadReads(form.headForm, form.head);
    ScalingStarts(form.scalingForm, form.scaling.rest);
    assert Blanks(form.gap) by { GapIsEdge(form.gap, ""); }
    TokenReads(form.gap, form.layout.Text(), form.scalingForm.Text(form.scaling.rest));
    LayoutReads(form.layout, form.bits);
    ScalingReads(num, form.scalingForm, form.scaling);
  }

  lemma ScalingStarts(form: ScalingForm, rest: string)
    requires Gap(form.gap)
    ensures Edge(form.Text(rest))
  {
    assert form.Text(rest)[0] == form.gap[0];
  }

  lemma SignalShape(num: NumberText, line: string) returns (form: SignalForm)
    requires ParseSignal(num, line).Ok?
    ensures form.Reads(num, line)
  {
    hide ParseHead, ParseLayout, ParseScaling, ParseRange, ParseUnit, TakeToken, Word, Edge, Gap;
    hide HeadForm.Text, LayoutForm.Text, LayoutForm.Reads, ScalingForm.Text;
    var head := ParseHead(line).value;
    var layout := TakeToken(head.rest);
    var headForm := HeadShape(line);
    EmptyIsNoLayout();
    var gap := TokenAfter(head.rest);
    var layoutForm := LayoutShape(layout.text);
    var scalingForm := ScalingShape(num, layout.rest);
    ScalingAfterWord(num, layout.rest, scalingForm);
    form := SignalForm(headForm, head, gap, layoutForm, ParseLayout(layout.text).value,
                       scalingForm, ParseScaling(num, layout.rest).value);
  }

  lemma EmptyIsNoLayout()
    ensures ParseLayout("").Err?
  {
  }

  /** After a word the bracket cannot come at once. */
  lemma ScalingAfterWord(num: NumberText, s: string, form: ScalingForm)
    requires ParseScaling(num, s).Ok? && Edge(s)
    requires form.Reads(num, ParseScaling(num, s).value) && form.Text(ParseScaling(num, s).value.rest) == s
    ensures Gap(form.gap)
  {
    hide ParseScaling, ParseDouble;
    assert s == form.gap + ("(" + (form.factor + "," + form.offset + ")" + ParseScaling(num, s).value.rest));
    assert s[|form.gap|] == '(';
  }

  /** The SG_ lines the parser accepts are exactly those of the form. */
  lemma SignalAcceptedExactlyWhen(num: NumberText, line: string)
    ensures ParseSignal(num, line).Ok? <==> exists form: SignalForm :: form.Reads(num, line)
  {
    hide ParseSignal, SignalForm.Reads;
    if ParseSignal(num, line).Ok? {
      var form := SignalShape(num, line);
    }
    if form: SignalForm :| form.Reads(num, line) {
      SignalReads(num, line, form);
    }
  }

  // ----- range and unit, which may be missing

  /** Every way a range can be there or not, and where the unit is looked for next. */
  lemma RangeReads(num: NumberText, gap: string, low: string, high: string, rest: string)
    requires Blanks(gap) && '|' !in low
    ensures Solid(rest) && (rest == "" || rest[0] != '[') ==>
              ParseRange(num, gap + rest) == Range(NegInf, PosInf, rest)
    ensures ParseRange(num, gap + "[" + low) == Range(NegInf, PosInf, "")
    ensures ParseDouble(num, low).None? ==> ParseRange(num, gap + "[" + low + "|" + rest) == Range(NegInf, PosInf, rest)
    ensures ParseDouble(num, low).Some? && ']' !in high ==>
              ParseRange(num, gap + "[" + low + "|" + high) == Range(NegInf, PosInf, "")
    ensures ParseDouble(num, low).Some? && ']' !in high ==>
              var min, max := ParseDouble(num, low).value, ParseDouble(num, high);
              ParseRange(num, gap + "[" + low + "|" + high + "]" + rest)
              == if max.Some? && Less(min, max.value) then Range(min, max.value, rest)
                 else Range(NegInf, PosInf, rest)
  {
    hide TakeUntil, NextIs, AfterConsume, ParseDouble, Less, ParseRange;
    RangeMissing(num, gap, rest);
    RangeOpen(num, gap, low);
    RangeWithoutLow(num, gap, low, rest);
    RangeWithoutEnd(num, gap, low, high);
    RangeWhole(num, gap, low, high, rest);
  }

  lemma RangeMissing(num: NumberText, gap: string, rest: string)
    requires Blanks(gap)
    ensures Solid(rest) && (rest == "" || rest[0] != '[') ==>
              ParseRange(num, gap + rest) == Range(NegInf, PosInf, rest)
  {
    hide TakeUntil, NextIs, AfterConsume, ParseDouble, Less;
    if Solid(rest) && (rest == "" || rest[0] != '[') {
      ConsumeMisses(gap, '[', rest);
    }
  }

  lemma RangeOpen(num: NumberText, gap: string, low: string)
    requires Blanks(gap) && '|' !in low
    ensures ParseRange(num, gap + "[" + low) == Range(NegInf, PosInf, "")
  {
    hide TakeUntil, NextIs, AfterConsume, ParseDouble, Less;
    ConsumeReads(gap, '[', low);
    assert low + "" == low;
    UntilReads(low, '|', "");
    ConsumeStop("", '|');
  }

  /** A range with its bar: what is read before it. */
  lemma LowReads(gap: string, low: string, tail: string)
    requires Blanks(gap) && '|' !in low
    ensures var s := gap + "[" + low + "|" + tail;
            var t := TakeUntil(AfterConsume(s, '['), '|');
            && NextIs(s, '[') && t.text == low && NextIs(t.rest, '|') && AfterConsume(t.rest, '|') == tail
  {
    hide TakeUntil, NextIs, AfterConsume;
    var s := gap + "[" + low + "|" + tail;
    var bar := "|" + tail;
    assert s == gap + ['['] + (low + bar);
    ConsumeReads(gap, '[', low + bar);
    UntilReads(low, '|', bar);
    ConsumeStop(bar, '|');
    assert bar[1..] == tail;
    assert (['|'] + AfterConsume(bar, '|'))[1..] == AfterConsume(bar, '|');
  }

  lemma RangeWithoutLow(num: NumberText, gap: string, low: string, rest: string)
    requires Blanks(gap) && '|' !in low
    ensures ParseDouble(num, low).None? ==> ParseRange(num, gap + "[" + low + "|" + rest) == Range(NegInf, PosInf, rest)
  {
    hide TakeUntil, NextIs, AfterConsume, ParseDouble, Less;
    LowReads(gap, low, rest);
  }

  lemma RangeWithoutEnd(num: NumberText, gap: string, low: string, high: string)
    requires Blanks(gap) && '|' !in low
    ensures ParseDouble(num, low).Some? && ']' !in high ==>
              ParseRange(num, gap + "[" + low + "|" + high) == Range(NegInf, PosInf, "")
  {
    hide TakeUntil, NextIs, AfterConsume, ParseDouble, Less;
    LowReads(gap, low, high);
    if ']' !in high {
      assert high + "" == high;
      UntilReads(high, ']', "");
      ConsumeStop("", ']');
    }
  }

  lemma RangeWhole(num: NumberText, gap: string, low: string, high: string, rest: string)
    requires Blanks(gap) && '|' !in low
    ensures ParseDouble(num, low).Some? && ']' !in high ==>
              var min, max := ParseDouble(num, low).value, ParseDouble(num, high);
              ParseRange(num, gap + "[" + low + "|" + high + "]" + rest)
              == if max.Some? && Less(min, max.value) then Range(min, max.value, rest)
                 else Range(NegInf, PosInf, rest)
  {
    hide TakeUntil, NextIs, AfterConsume, ParseDouble, Less;
    var end := "]" + rest;
    assert gap + "[" + low + "|" + high + "]" + rest == gap + "[" + low + "|" + (high + end);
    LowReads(gap, low, high + end);
    if ']' !in high {
      UntilReads(high, ']', end);
      assert end == "" + [']'] + rest;
      ConsumeReads("", ']', rest);
    }
  }

  /** A unit is what stands between two quotes; one without its end, or none, is empty. */
  lemma UnitReads(gap: string, unit: string, rest: string)
    requires Blanks(gap) && '"' !in unit
    ensures ParseUnit(gap + "\"" + unit + "\"" + rest) == unit
    ensures ParseUnit(gap + "\"" + unit) == ""
    ensures Solid(rest) && (rest == "" || rest[0] != '"') ==> ParseUnit(gap + rest) == ""
  {
    hide TakeUntil, NextIs, AfterConsume;
    var close := "\"" + rest;
    assert gap + "\"" + unit + "\"" + rest == gap + ['"'] + (unit + close);
    ConsumeReads(gap, '"', unit + close);
    UntilReads(unit, '"', close);
    ConsumeStop(close, '"');
    ConsumeReads(gap, '"', unit);
    assert unit + "" == unit;
    UntilReads(unit, '"', "");
    ConsumeStop("", '"');
    if Solid(rest) && (rest == "" || rest[0] != '"') {
      ConsumeMisses(gap, '"', rest);
    }
  }

  // ----- the BO_ line

  /** <blanks> BO_ <gap> <number> <gap> <name> : <blanks> <length> <what follows, after a blank> */
  datatype HeaderForm = HeaderForm(indent: string, gap: string, number: string, nameGap: string, name: string,
                                   lengthGap: string, length: string, rest: string)
  {
    function Text(): string {
      indent + "BO_" + gap + number + nameGap + name + ":" + lengthGap + length + rest
    }

    /** A standard identifier, or an extended one with bit 31; a payload of at most 64 bytes. */
    ghost predicate Reads(raw: u32, byteLength: u32) {
      && Blanks(indent) && Gap(gap) && Word(number) && Gap(nameGap) && Blanks(lengthGap) && Word(length) && Edge(rest)
      && ':' !in name && name != "" && Solid(name) && Trim(name) != ""
      && Writes(number, raw) && (raw < 0x800 || 0x8000_0000 <= raw < 0xA000_0000)
      && Writes(length, byteLength) && byteLength <= 64
    }
  }

  lemma HeaderReads(form: HeaderForm, raw: u32, byteLength: u32)
    requires form.Reads(raw, byteLength)
    ensures ParseMessage(form.Text()) == Ok(Header(CanId(raw), Trim(form.name), byteLength))
  {
    hide TakeToken, TakeUntil, SkipBlanks, AfterConsume, NextIs, ParseU32, Trim, IdOfRaw, Writes, Word, Edge;
    var afterColon := form.lengthGap + form.length + form.rest;
    var named := form.name + ":" + afterColon;
    var afterRaw := form.nameGap + named;
    HeaderWords(form, named);
    assert form.Text() == form.indent + "BO_" + (form.gap + form.number + afterRaw);
    assert named[0] == form.name[0];
    SkipBlanksReads(form.nameGap, named);
    assert named == form.name + (":" + afterColon);
    UntilReads(form.name, ':', ":" + afterColon);
    assert ":" + afterColon == "" + [':'] + afterColon;
    ConsumeReads("", ':', afterColon);
    TokenReads(form.lengthGap, form.length, form.rest);
    ParseU32ExactlyWhen(form.number, raw);
    ParseU32ExactlyWhen(form.length, byteLength);
    IdOfRawExactly(raw);
  }

  lemma HeaderWords(form: HeaderForm, named: string)
    requires Blanks(form.indent) && Gap(form.gap) && Word(form.number) && Gap(form.nameGap)
    ensures var afterRaw := form.nameGap + named;
            && Blanks(form.nameGap)
            && TakeToken(form.indent + "BO_" + (form.gap + form.number + afterRaw))
               == Piece("BO_", form.gap + form.number + afterRaw)
            && TakeToken(form.gap + form.number + afterRaw) == Piece(form.number, afterRaw)
  {
    hide TakeToken, Word;
    var afterRaw := form.nameGap + named;
    KeywordsAreWords();
    GapIsEdge(form.gap, form.number + afterRaw);
    assert form.gap + (form.number + afterRaw) == form.gap + form.number + afterRaw;
    TokenReads(form.indent, "BO_", form.gap + form.number + afterRaw);
    GapIsEdge(form.nameGap, named);
    TokenReads(form.gap, form.number, afterRaw);
  }

  lemma HeaderShape(line: string) returns (form: HeaderForm, raw: u32, byteLength: u32)
    requires ParseMessage(line).Ok?
    ensures form.Text() == line && form.Reads(raw, byteLength)
  {
    hide TakeToken, TakeUntil, SkipBlanks, AfterConsume, NextIs, ParseU32, Trim, IdOfRaw, Writes, Word, Edge;
    var keyword := TakeToken(line);
    var number := TakeToken(keyword.rest);
    var named := SkipBlanks(number.rest);
    var name := TakeUntil(named, ':');
    var length := TakeToken(AfterConsume(name.rest, ':'));
    raw, byteLength := ParseU32(number.text).value, ParseU32(length.text).value;
    EmptyIsNothing();
    var indent := TokenShape(line);
    var gap := TokenAfter(keyword.rest);
    var nameGap := SkipBlanksShape(number.rest);
    UntilShape(named, ':');
    ConsumeStop(name.rest, ':');
    var lengthGap := TokenShape(AfterConsume(name.rest, ':'));
    ParseU32ExactlyWhen(number.text, raw);
    ParseU32ExactlyWhen(length.text, byteLength);
    IdOfRawExactly(raw);
    form := HeaderForm(indent, gap, number.text, nameGap, name.text, lengthGap, length.text, length.rest);
    NameStarts(number.rest, nameGap, named, name.text, name.rest);
    var afterColon := ":" + (lengthGap + length.text + length.rest);
    assert form.Text() == indent + "BO_" + (gap + number.text + (nameGap + (name.text + afterColon)));
  }

  lemma EmptyIsNothing()
    ensures ParseU32("") == None && Trim("") == ""
  {
    TrimOfTight("");
  }

  /** The name starts after a gap, and not with a blank. */
  lemma NameStarts(s: string, gap: string, named: string, name: string, rest: string)
    requires Edge(s) && s == gap + named && Blanks(gap) && Solid(named)
    requires named == name + rest && name != ""
    ensures Gap(gap) && Solid(name)
  {
    assert s[|gap|] == named[0] == name[0];
  }

  /** The BO_ lines the parser accepts are exactly those of the form. */
  lemma HeaderAcceptedExactlyWhen(line: string)
    ensures ParseMessage(line).Ok?
            <==> exists form: HeaderForm, raw: u32, byteLength: u32 ::
                   form.Reads(raw, byteLength) && form.Text() == line
  {
    hide ParseMessage, HeaderForm.Reads, HeaderForm.Text;
    if ParseMessage(line).Ok? {
      var form, raw, byteLength := HeaderShape(line);
    }
    if form: HeaderForm, raw: u32, byteLength: u32 :| form.Reads(raw, byteLength) && form.Text() == line {
      HeaderReads(form, raw, byteLength);
    }
  }

  // ----- the SIG_VALTYPE_ line

  /** <blanks> <keyword> <gap> <id> <gap> <signal> <gap> : <kind>; */
  datatype ValueTypeForm = ValueTypeForm(indent: string, keyword: string, gap: string, id: string, nameGap: string,
                                         colonGap: string, kind: string, rest: string)
  {
    function Text(v: ValueType): string {
      indent + keyword + gap + id + nameGap + v.signal + colonGap + ":" + kind + rest
    }

    /** The kind ends at a semicolon or with the line, and is not 0. */
    ghost predicate Reads(v: ValueType) {
      && Blanks(indent) && Word(keyword) && Gap(gap) && Word(id) && Gap(nameGap) && Word(v.signal) && Gap(colonGap)
      && ';' !in kind && (rest == "" || rest[0] == ';')
      && Writes(id, v.rawId) && Writes(kind, v.kind) && v.kind != 0
    }
  }

  lemma TrimTwice(s: string)
    ensures ParseU32(Trim(s)) == ParseU32(s)
  {
    hide Trim;
    var a, b := TrimShape(s);
    assert "" + Trim(s) + "" == Trim(s);
    TrimReads("", Trim(s), "");
  }

  lemma ValueTypeReads(form: ValueTypeForm, v: ValueType)
    requires form.Reads(v)
    ensures ParseValueType(form.Text(v)) == Some(v)
  {
    hide TakeToken, TakeUntil, AfterConsume, NextIs, ParseU32, Trim, Writes, Word, Edge;
    var tail := form.kind + form.rest;
    var afterName := form.colonGap + ":" + tail;
    var afterId := form.nameGap + v.signal + afterName;
    var afterKeyword := form.gap + form.id + afterId;
    assert form.Text(v) == form.indent + form.keyword + afterKeyword;
    GapIsEdge(form.colonGap, ":" + tail);
    assert form.colonGap + (":" + tail) == afterName;
    GapIsEdge(form.nameGap, v.signal + afterName);
    assert form.nameGap + (v.signal + afterName) == afterId;
    GapIsEdge(form.gap, form.id + afterId);
    assert form.gap + (form.id + afterId) == afterKeyword;
    TokenReads(form.indent, form.keyword, afterKeyword);
    TokenReads(form.gap, form.id, afterId);
    TokenReads(form.nameGap, v.signal, afterName);
    ConsumeReads(form.colonGap, ':', tail);
    UntilReads(form.kind, ';', form.rest);
    ParseU32ExactlyWhen(form.id, v.rawId);
    ParseU32ExactlyWhen(form.kind, v.kind);
    TrimTwice(form.kind);
  }

  /** No token means the end of the line. */
  lemma TokenBeforeText(s: string)
    ensures TakeToken(s).rest != "" ==> TakeToken(s).text != ""
  {
    hide TakeToken;
    var b := TokenShape(s);
  }

  lemma ValueTypeShape(line: string) returns (form: ValueTypeForm)
    requires ParseValueType(line).Some?
    ensures form.Reads(ParseValueType(line).value) && form.Text(ParseValueType(line).value) == line
  {
    hide TakeToken, TakeUntil, AfterConsume, NextIs, ParseU32, Trim, Writes, Word, Edge;
    var v := ParseValueType(line).value;
    var keyword := TakeToken(line);
    var id := TakeToken(keyword.rest);
    var name := TakeToken(id.rest);
    var kind := TakeUntil(AfterConsume(name.rest, ':'), ';');
    EmptyIsNothing();
    var indent := TokenShape(line);
    var gap := TokenAfter(keyword.rest);
    NoColonAtEnd();
    TokenBeforeText(id.rest);
    var nameGap := TokenAfter(id.rest);
    var colonGap := ConsumeShape(name.rest, ':');
    ColonAfterGap(name.rest, colonGap, AfterConsume(name.rest, ':'));
    UntilShape(AfterConsume(name.rest, ':'), ';');
    TrimTwice(kind.text);
    ParseU32ExactlyWhen(id.text, v.rawId);
    ParseU32ExactlyWhen(kind.text, v.kind);
    form := ValueTypeForm(indent, keyword.text, gap, id.text, nameGap, colonGap, kind.text, kind.rest);
    assert form.Text(v)
        == indent + keyword.text + (gap + id.text + (nameGap + v.signal + (colonGap + ":" + (kind.text + kind.rest))));
  }

  lemma NoColonAtEnd()
    ensures !NextIs("", ':')
  {
  }

  lemma ColonAfterGap(s: string, gap: string, rest: string)
    requires Edge(s) && Blanks(gap) && s == gap + ":" + rest
    ensures Gap(gap)
  {
    assert s[|gap|] == ':';
  }

  /** A line is a value type exactly when it is of the form; a kind of 0 is none. */
  lemma ValueTypeExactlyWhen(line: string, v: ValueType)
    ensures ParseValueType(line) == Some(v) <==> exists form: ValueTypeForm :: form.Reads(v) && form.Text(v) == line
  {
    hide ParseValueType, ValueTypeForm.Reads, ValueTypeForm.Text;
    if ParseValueType(line) == Some(v) {
      var form := ValueTypeShape(line);
    }
    if form: ValueTypeForm :| form.Reads(v) && form.Text(v) == line {
      ValueTypeReads(form, v);
    }
  }
}
