/** Writing signals and messages in the DBC grammar, and reading them back. */
module DbcPrinting {
  import opened Words
  import opened CanTypes
  import opened Packing
  import opened Signals
  import opened DbcText
  import opened DbcRecords

  /** The printed form of d parses back, and holds no character the line grammar stops at. */
  ghost predicate Shows(num: NumberText, d: Double) {
    && d != NaN
    && ParseDouble(num, num.show(d)) == Some(d)
    && ',' !in num.show(d) && ')' !in num.show(d) && '|' !in num.show(d) && ']' !in num.show(d)
  }

  /** The number format can print the infinities and every number it can parse. */
  ghost predicate Faithful(num: NumberText) {
    && Shows(num, NegInf) && Shows(num, PosInf)
    && forall text: string :: num.parse(text).Some? && num.parse(text).value != NaN ==>
         Shows(num, num.parse(text).value)
  }

  /** What a line can hold: a blank-free name, a quote-free unit, printable numbers. */
  ghost predicate Printable(num: NumberText, sig: Signal) {
    && sig.Valid()
    && sig.name != "" && Blankless(sig.name)
    && '"' !in sig.unit
    && Shows(num, Finite(sig.scale)) && Shows(num, Finite(sig.offset))
    && Shows(num, sig.minimum) && Shows(num, sig.maximum)
  }

  function MuxText(sig: Signal): string {
    match sig.muxRole
    case NoMultiplex => ""
    case Selector => " M"
    case Multiplexed => " m" + Decimal(sig.muxValue)
  }

  function LayoutText(sig: Signal): string {
    Decimal(sig.startBit) + "|" + Decimal(sig.length)
    + (if sig.order == LittleEndian then "@1" else "@0") + (if sig.isSigned then "-" else "+")
  }

  function ScalingText(num: NumberText, sig: Signal): string {
    "(" + num.show(Finite(sig.scale)) + "," + num.show(Finite(sig.offset)) + ")"
  }

  function RangeText(num: NumberText, sig: Signal): string {
    "[" + num.show(sig.minimum) + "|" + num.show(sig.maximum) + "]"
  }

  /** SG_ <name> [M|m<n>] : <start>|<length>@<order><sign> (<factor>,<offset>) [<min>|<max>] "<unit>" <receivers> */
  function PrintSignal(num: NumberText, sig: Signal, receivers: string): string {
    "SG_ " + sig.name + MuxText(sig) + " : " + LayoutText(sig) + " " + ScalingText(num, sig) + " "
    + RangeText(num, sig) + " \"" + sig.unit + "\"" + receivers
  }

  /** What the line carries: not the float flag, nor the invalid policy, nor an idle mux value. */
  function ReadBack(sig: Signal): Signal {
    var bounded := Less(sig.minimum, sig.maximum);
    sig.(isFloat := false, invalid := NoInvalid,
         muxValue := if sig.muxRole == Multiplexed then sig.muxValue else 0,
         minimum := if bounded then sig.minimum else NegInf,
         maximum := if bounded then sig.maximum else PosInf)
  }

  // ----- each part reads back

  /** The keyword and the name, and the text after them. */
  lemma NameReadsBack(name: string, afterName: string)
    requires name != "" && Blankless(name) && afterName != [] && IsBlank(afterName[0])
    ensures var keyword := TakeToken("SG_ " + name + afterName);
            keyword.text == "SG_" && TakeToken(keyword.rest) == Piece(name, afterName)
  {
    hide TakeToken, IsBlank, Blankless;
    assert "SG_ " + name + afterName == "SG_" + (" " + name + afterName);
    assert IsBlank(' ') && Blankless("SG_") by { KeywordIsBlankless(); }
    TokenOf("SG_", " " + name + afterName);
    TokenOf(name, afterName);
  }

  lemma KeywordIsBlankless()
    ensures IsBlank(' ') && Blankless("SG_") && Blankless(":") && Blankless("M")
  {
  }

  lemma ColonReadsBack(rest: string)
    requires rest != [] && IsBlank(rest[0])
    ensures TakeToken(" :" + rest) == Piece(":", rest)
  {
    hide TakeToken, IsBlank, Blankless;
    KeywordIsBlankless();
    assert " :" + rest == " " + ":" + rest;
    TokenOf(":", rest);
  }

  lemma SelectorReadsBack(colon: string)
    requires colon != [] && IsBlank(colon[0])
    ensures TakeToken(" M" + colon) == Piece("M", colon)
  {
    hide TakeToken, IsBlank, Blankless;
    KeywordIsBlankless();
    assert " M" + colon == " " + "M" + colon;
    TokenOf("M", colon);
  }

  lemma MultiplexedReadsBack(mux: u32, colon: string)
    requires colon != [] && IsBlank(colon[0])
    ensures var marker := "m" + Decimal(mux);
            && TakeToken(" m" + Decimal(mux) + colon) == Piece(marker, colon)
            && |marker| >= 2 && marker[0] == 'm' && ParseU32(MuxDigits(marker)) == Some(mux)
  {
    hide TakeToken, ParseU32, Decimal;
    var digits := Decimal(mux);
    var marker := "m" + digits;
    assert marker[|marker| - 1] == digits[|digits| - 1];
    assert marker[1..] == digits;
    assert Blankless(marker);
    assert " m" + digits + colon == " " + marker + colon;
    TokenOf(marker, colon);
    ParsePrinted(mux);
  }

  lemma HeadReadsBack(sig: Signal, rest: string)
    requires sig.name != "" && Blankless(sig.name) && rest != [] && IsBlank(rest[0])
    ensures ParseHead("SG_ " + sig.name + MuxText(sig) + " :" + rest)
            == Ok(Head(sig.name, sig.muxRole, if sig.muxRole == Multiplexed then sig.muxValue else 0, rest))
  {
    hide TakeToken, ParseU32, Decimal, Blankless, MuxDigits;
    var colon := " :" + rest;
    var afterName := MuxText(sig) + colon;
    assert "SG_ " + sig.name + MuxText(sig) + " :" + rest == "SG_ " + sig.name + afterName;
    NameReadsBack(sig.name, afterName);
    ColonReadsBack(rest);
    match sig.muxRole
    case NoMultiplex =>
      assert afterName == colon;
    case Selector =>
      SelectorReadsBack(colon);
    case Multiplexed =>
      MultiplexedReadsBack(sig.muxValue, colon);
  }

  lemma LayoutReadsBack(sig: Signal)
    requires sig.Valid()
    ensures ParseLayout(LayoutText(sig)) == Ok(Bits(sig.startBit, sig.length, sig.order, sig.isSigned))
    ensures LayoutText(sig) != "" && Blankless(LayoutText(sig))
  {
    hide ParseU32, Decimal, LengthUntil;
    var start, length := Decimal(sig.startBit), Decimal(sig.length);
    var tail := (if sig.order == LittleEndian then "1" else "0") + (if sig.isSigned then "-" else "+");
    var layout := start + "|" + length + "@" + tail;
    assert LayoutText(sig) == layout;
    LayoutSplits(start, length, tail);
    assert layout[|start| + |length| + 2] == tail[0] && layout[|start| + |length| + 3] == tail[1];
    ParsePrinted(sig.startBit);
    ParsePrinted(sig.length);
  }

  /** Both separators are found after the digits before them. */
  lemma LayoutSplits(start: string, length: string, tail: string)
    requires AllDigits(start) && AllDigits(length)
    ensures var layout := start + "|" + length + "@" + tail;
            && LengthUntil(layout, '|') == |start| && LengthUntil(layout, '@') == |start| + 1 + |length|
            && layout[..|start|] == start && layout[|start| + 1..|start| + 1 + |length|] == length
  {
    hide LengthUntil;
    var layout := start + "|" + length + "@" + tail;
    DigitsLack(start, '|');
    DigitsLack(start, '@');
    DigitsLack(length, '@');
    assert layout == start + ['|'] + (length + "@" + tail);
    LengthUntilOf(start, '|', length + "@" + tail);
    assert layout == (start + "|" + length) + ['@'] + tail;
    LengthUntilOf(start + "|" + length, '@', tail);
  }

  lemma DigitsLack(s: string, d: char)
    requires AllDigits(s) && !IsDigit(d)
    ensures d !in s
  {
  }

  lemma ScalingReadsBack(num: NumberText, sig: Signal, rest: string)
    requires Shows(num, Finite(sig.scale)) && Shows(num, Finite(sig.offset))
    ensures ParseScaling(num, " " + ScalingText(num, sig) + rest) == Ok(Scaling(sig.scale, sig.offset, rest))
  {
    hide TakeUntil, NextIs, AfterConsume, ParseDouble;
    var factor, offset := num.show(Finite(sig.scale)), num.show(Finite(sig.offset));
    var afterFactor := [','] + (offset + [')'] + rest);
    assert " " + ScalingText(num, sig) + rest == " " + ['('] + (factor + [','] + (offset + [')'] + rest));
    ConsumeOf('(', factor + [','] + (offset + [')'] + rest));
    UntilOf(factor, ',', offset + [')'] + rest);
    ConsumeOf(',', offset + [')'] + rest);
    UntilOf(offset, ')', rest);
    ConsumeOf(')', rest);
  }

  lemma RangeReadsBack(num: NumberText, sig: Signal, rest: string)
    requires Shows(num, sig.minimum) && Shows(num, sig.maximum)
    ensures ParseRange(num, " " + RangeText(num, sig) + rest)
            == Range(ReadBack(sig).minimum, ReadBack(sig).maximum, rest)
  {
    hide TakeUntil, NextIs, AfterConsume, ParseDouble;
    var low, high := num.show(sig.minimum), num.show(sig.maximum);
    assert " " + RangeText(num, sig) + rest == " " + ['['] + (low + ['|'] + (high + [']'] + rest));
    ConsumeOf('[', low + ['|'] + (high + [']'] + rest));
    UntilOf(low, '|', high + [']'] + rest);
    ConsumeOf('|', high + [']'] + rest);
    UntilOf(high, ']', rest);
    ConsumeOf(']', rest);
  }

  lemma UnitReadsBack(unit: string, rest: string)
    requires '"' !in unit
    ensures ParseUnit(" \"" + unit + "\"" + rest) == unit
  {
    hide TakeUntil, NextIs, AfterConsume;
    assert " \"" + unit + "\"" + rest == " " + ['"'] + (unit + ['"'] + rest);
    ConsumeOf('"', unit + ['"'] + rest);
    UntilOf(unit, '"', rest);
    ConsumeOf('"', rest);
  }

  /** Printing a signal and parsing the line gives the signal back. */
  lemma SignalRoundTrip(num: NumberText, sig: Signal, receivers: string)
    requires Printable(num, sig)
    ensures ParseSignal(num, PrintSignal(num, sig, receivers)) == Ok(ReadBack(sig))
  {
    hide ParseHead, ParseLayout, ParseScaling, ParseRange, ParseUnit, TakeToken;
    hide MuxText, LayoutText, ScalingText, RangeText;
    var unit := " \"" + sig.unit + "\"" + receivers;
    var range := " " + RangeText(num, sig) + unit;
    var scaling := " " + ScalingText(num, sig) + range;
    var layout := " " + LayoutText(sig) + scaling;
    assert PrintSignal(num, sig, receivers) == "SG_ " + sig.name + MuxText(sig) + " :" + layout;
    HeadReadsBack(sig, layout);
    LayoutReadsBack(sig);
    TokenOf(LayoutText(sig), scaling);
    ScalingReadsBack(num, sig, range);
    RangeReadsBack(num, sig, unit);
    UnitReadsBack(sig.unit, receivers);
  }

  // ----- what the parser accepts is printable

  lemma HeadIsPrintable(line: string)
    requires ParseHead(line).Ok?
    ensures var head := ParseHead(line).value;
            && head.name != "" && Blankless(head.name)
            && (head.role != Multiplexed ==> head.mux == 0)
  {
    hide WordLength, ParseU32;
    WordIsBlankless(SkipBlanks(TakeToken(line).rest));
  }

  lemma RangeIsOrdered(num: NumberText, s: string)
    requires Faithful(num)
    ensures var r := ParseRange(num, s);
            && ((r.minimum == NegInf && r.maximum == PosInf) || Less(r.minimum, r.maximum))
            && Shows(num, r.minimum) && Shows(num, r.maximum)
  {
    hide TakeUntil, NextIs, AfterConsume, Shows, Trim;
  }

  lemma ScalingIsPrintable(num: NumberText, s: string)
    requires Faithful(num)
    ensures ParseScaling(num, s).Ok? ==>
              var r := ParseScaling(num, s).value;
              Shows(num, Finite(r.factor)) && Shows(num, Finite(r.offset))
  {
    hide TakeUntil, NextIs, AfterConsume, Shows, Trim;
  }

  lemma UnitIsQuoteFree(s: string)
    ensures '"' !in ParseUnit(s)
  {
    hide LengthUntil, AfterConsume, NextIs;
  }

  /**
   Every signal the parser accepts, from any line whatever, is in range, named and
   printable, and printing it gives a line that parses to it again.
   */
  lemma AcceptedSignalsReprint(num: NumberText, line: string, receivers: string)
    requires Faithful(num)
    ensures ParseSignal(num, line).Ok? ==>
              var sig := ParseSignal(num, line).value;
              Printable(num, sig) && ParseSignal(num, PrintSignal(num, sig, receivers)) == Ok(sig)
  {
    hide ParseHead, ParseScaling, ParseRange, ParseUnit, TakeToken, PrintSignal;
    if ParseSignal(num, line).Err? {
      return;
    }
    var sig := ParseSignal(num, line).value;
    var head := ParseHead(line).value;
    HeadIsPrintable(line);
    var layout := TakeToken(head.rest);
    var scaling := ParseScaling(num, layout.rest).value;
    ScalingIsPrintable(num, layout.rest);
    RangeIsOrdered(num, scaling.rest);
    var range := ParseRange(num, scaling.rest);
    UnitIsQuoteFree(range.rest);
    SignalRoundTrip(num, sig, receivers);
  }

  // ----- BO_ lines

  /** The raw DBC number of an identifier: its value, and bit 31 when extended. */
  function RawOfId(id: CanId): u32 {
    if id.Extended() then id.Identifier() + EXTENDED_FLAG else id.Identifier()
  }

  /** An identifier with no reserved bit: 11 bits, or bit 31 and 29 bits. */
  predicate PlainId(id: CanId) {
    id.raw < 0x800 || 0x8000_0000 <= id.raw < 0xA000_0000
  }

  lemma PlainRaw(id: CanId)
    requires PlainId(id)
    ensures RawOfId(id) == id.raw && (id.Extended() <==> id.raw >= 0x8000_0000)
  {
    if id.raw >= 0x8000_0000 {
      var n := id.raw - 0x8000_0000;
      assert id.raw / 0x8000_0000 == 1 && id.raw == 4 * 0x2000_0000 + n && n % 0x2000_0000 == n;
    } else {
      assert id.raw / 0x8000_0000 == 0 && id.raw % 0x800 == id.raw;
    }
  }

  predicate PrintableHeader(h: Header) {
    && PlainId(h.id)
    && h.byteLength <= 64
    && h.name != "" && ':' !in h.name
    && !IsTrimmed(h.name[0]) && !IsTrimmed(h.name[|h.name| - 1])
  }

  /** BO_ <id> <name>: <dlc> <transmitter> */
  function PrintHeader(h: Header, transmitter: string): string {
    "BO_ " + Decimal(RawOfId(h.id)) + " " + h.name + ": " + Decimal(h.byteLength) + " " + transmitter
  }

  lemma HeaderRoundTrip(h: Header, transmitter: string)
    requires PrintableHeader(h)
    ensures ParseMessage(PrintHeader(h, transmitter)) == Ok(h)
  {
    hide TakeToken, TakeUntil, AfterConsume, NextIs, ParseU32, IdOfRaw, RawOfId, Decimal;
    var raw, dlc := Decimal(RawOfId(h.id)), Decimal(h.byteLength);
    var afterDlc := " " + transmitter;
    var afterColon := " " + dlc + afterDlc;
    var afterRaw := " " + h.name + ([':'] + afterColon);
    assert PrintHeader(h, transmitter) == "BO_" + (" " + raw + afterRaw);
    TokenOf("BO_", " " + raw + afterRaw);
    DigitsBlankless(raw);
    DigitsBlankless(dlc);
    TokenOf(raw, afterRaw);
    assert afterRaw[1..] == h.name + [':'] + afterColon;
    assert (h.name + [':'] + afterColon)[0] == h.name[0];
    assert SkipBlanks(afterRaw) == SkipBlanks(afterRaw[1..]);
    assert SkipBlanks(afterRaw) == h.name + [':'] + afterColon;
    UntilOf(h.name, ':', afterColon);
    TrimOfTight(h.name);
    ConsumeOf(':', afterColon);
    TokenOf(dlc, afterDlc);
    ParsePrinted(RawOfId(h.id));
    ParsePrinted(h.byteLength);
    PlainRaw(h.id);
    IdOfRawExactly(h.id.raw);
  }

  lemma DigitsBlankless(s: string)
    requires AllDigits(s)
    ensures Blankless(s)
  {
  }

  /** Every header the parser accepts is printable, so reprinting it is stable too. */
  lemma AcceptedHeadersReprint(line: string, transmitter: string)
    requires ParseMessage(line).Ok?
    ensures var h := ParseMessage(line).value;
            PrintableHeader(h) && ParseMessage(PrintHeader(h, transmitter)) == Ok(h)
  {
    hide TakeToken, AfterConsume, NextIs, ParseU32, Decimal, LengthUntil, Trim, PrintHeader, IdOfRaw;
    var h := ParseMessage(line).value;
    var raw := ParseU32(TakeToken(TakeToken(line).rest).text).value;
    IdOfRawExactly(raw);
    var name := TakeUntil(SkipBlanks(TakeToken(TakeToken(line).rest).rest), ':').text;
    TrimEnds(name);
    HeaderRoundTrip(h, transmitter);
  }
}
