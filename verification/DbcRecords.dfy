/** Parsing one BO_ or SG_ line. */
module DbcRecords {
  import opened Words
  import opened CanTypes
  import opened Packing
  import opened Signals
  import opened DbcText

  /** The floating-point text format of the standard library, taken as given. */
  datatype NumberText = NumberText(parse: string -> Option<Double>, show: Double -> string)

  function ParseDouble(num: NumberText, text: string): Option<Double> {
    num.parse(Trim(text))
  }

  function Require<T>(condition: bool, value: T): Result<T> {
    if condition then Ok(value) else Err(ParseError)
  }

  // ----- the SG_ line, part by part

  /** Name and multiplexing marker, and the text after the colon token. */
  datatype Head = Head(name: string, role: MultiplexRole, mux: u32, rest: string)

  function ParseHead(line: string): Result<Head> {
    var keyword := TakeToken(line);
    var name := TakeToken(keyword.rest);
    if keyword.text != "SG_" || name.text == "" then Err(ParseError) else ParseMarker(name.text, name.rest)
  }

  /** The optional marker after a name, and the colon. */
  function ParseMarker(name: string, s: string): Result<Head> {
    var marker := TakeToken(s);
    if marker.text == "M" then
      var colon := TakeToken(marker.rest);
      Require(colon.text == ":", Head(name, Selector, 0, colon.rest))
    else if |marker.text| >= 2 && marker.text[0] == 'm' then
      var colon := TakeToken(marker.rest);
      match ParseU32(MuxDigits(marker.text))
      case None => Err(ParseError)
      case Some(mux) => Require(colon.text == ":", Head(name, Multiplexed, mux, colon.rest))
    else
      Require(marker.text == ":", Head(name, NoMultiplex, 0, marker.rest))
  }

  /** The digits of an "m<N>" or "m<N>M" marker. */
  function MuxDigits(marker: string): string
    requires |marker| >= 2
  {
    if marker[|marker| - 1] == 'M' then marker[1..|marker| - 1] else marker[1..]
  }

  datatype Bits = Bits(start: u16, length: u16, order: ByteOrder, isSigned: bool)

  /** The bit layout token "<start>|<length>@<order><sign>". */
  function ParseLayout(layout: string): (r: Result<Bits>)
    ensures r.Ok? ==> 1 <= r.value.length <= 64
  {
    var bar, at := LengthUntil(layout, '|'), LengthUntil(layout, '@');
    if bar == |layout| || at == |layout| || at < bar || at + 2 >= |layout| then Err(ParseError)
    else
      match (ParseU32(layout[..bar]), ParseU32(layout[bar + 1..at]))
      case (Some(start), Some(length)) =>
        if length < 1 || length > 64 || start > 0xFFFF then Err(ParseError)
        else
          var order, sign := layout[at + 1], layout[at + 2];
          Require((order == '0' || order == '1') && (sign == '+' || sign == '-'),
                  Bits(start, length, if order == '1' then LittleEndian else BigEndian, sign == '-'))
      case _ => Err(ParseError)
  }

  datatype Scaling = Scaling(factor: real, offset: real, rest: string)

  /** The scaling "(<factor>,<offset>)"; both numbers must be finite. */
  function ParseScaling(num: NumberText, s: string): Result<Scaling> {
    var factor := TakeUntil(AfterConsume(s, '('), ',');
    var offset := TakeUntil(AfterConsume(factor.rest, ','), ')');
    if !NextIs(s, '(') || !NextIs(factor.rest, ',') || !NextIs(offset.rest, ')') then Err(ParseError)
    else
      match (ParseDouble(num, factor.text), ParseDouble(num, offset.text))
      case (Some(Finite(f)), Some(Finite(o))) => Ok(Scaling(f, o, AfterConsume(offset.rest, ')')))
      case _ => Err(ParseError)
  }

  datatype Range = Range(minimum: Double, maximum: Double, rest: string)

  /** The optional range; anything but an increasing one is read as unbounded. */
  function ParseRange(num: NumberText, s: string): Range {
    var low := TakeUntil(AfterConsume(s, '['), '|');
    var high := TakeUntil(AfterConsume(low.rest, '|'), ']');
    if !NextIs(s, '[') then Range(NegInf, PosInf, AfterConsume(s, '['))
    else if !NextIs(low.rest, '|') || ParseDouble(num, low.text).None? then
      Range(NegInf, PosInf, AfterConsume(low.rest, '|'))
    else
      var rest := AfterConsume(high.rest, ']');
      match ParseDouble(num, high.text)
      case Some(maximum) =>
        var minimum := ParseDouble(num, low.text).value;
        if NextIs(high.rest, ']') && Less(minimum, maximum) then Range(minimum, maximum, rest)
        else Range(NegInf, PosInf, rest)
      case None => Range(NegInf, PosInf, rest)
  }

  /** The optional quoted unit. */
  function ParseUnit(s: string): string {
    var unit := TakeUntil(AfterConsume(s, '"'), '"');
    if NextIs(s, '"') && NextIs(unit.rest, '"') then unit.text else ""
  }

  function ParseSignal(num: NumberText, line: string): (r: Result<Signal>)
    ensures r.Ok? ==> r.value.Valid()
  {
    match ParseHead(line)
    case Err(e) => Err(e)
    case Ok(head) =>
      var layout := TakeToken(head.rest);
      match ParseLayout(layout.text)
      case Err(e) => Err(e)
      case Ok(bits) =>
        match ParseScaling(num, layout.rest)
        case Err(e) => Err(e)
        case Ok(scaling) =>
          var range := ParseRange(num, scaling.rest);
          Ok(SignalOf(head, bits, scaling, range, ParseUnit(range.rest)))
  }

  function SignalOf(head: Head, bits: Bits, scaling: Scaling, range: Range, unit: string): Signal {
    DEFAULT_SIGNAL.(name := head.name, muxRole := head.role, muxValue := head.mux,
                    startBit := bits.start, length := bits.length, order := bits.order, isSigned := bits.isSigned,
                    scale := scaling.factor, offset := scaling.offset,
                    minimum := range.minimum, maximum := range.maximum, unit := unit)
  }

  // ----- the parsers as they run

  method DbcParseHead(scanner: DbcScanner) returns (r: Result<Head>)
    requires scanner.Valid()
    modifies scanner
    ensures scanner.Valid()
    ensures r.Ok? <==> ParseHead(old(scanner.Rest())).Ok?
    ensures r.Ok? ==> r == ParseHead(old(scanner.Rest())) && scanner.Rest() == r.value.rest
  {
    var keyword := scanner.Token();
    if keyword != "SG_" {
      return Err(ParseError);
    }
    var name := scanner.Token();
    if name == "" {
      return Err(ParseError);
    }
    var role, mux := NoMultiplex, 0;
    var marker := scanner.Token();
    if marker == "M" {
      role := Selector;
      marker := scanner.Token();
    } else if |marker| >= 2 && marker[0] == 'm' {
      var digits := marker[1..];
      if digits[|digits| - 1] == 'M' {
        digits := digits[..|digits| - 1];
      }
      assert digits == MuxDigits(marker);
      var parsed := ParseU32(digits);
      if parsed.None? {
        return Err(ParseError);
      }
      role, mux := Multiplexed, parsed.value;
      marker := scanner.Token();
    }
    if marker != ":" {
      return Err(ParseError);
    }
    return Ok(Head(name, role, mux, scanner.Rest()));
  }

  method DbcParseScaling(num: NumberText, scanner: DbcScanner) returns (r: Result<Scaling>)
    requires scanner.Valid()
    modifies scanner
    ensures scanner.Valid()
    ensures r.Ok? <==> ParseScaling(num, old(scanner.Rest())).Ok?
    ensures r.Ok? ==> r == ParseScaling(num, old(scanner.Rest())) && scanner.Rest() == r.value.rest
  {
    hide TakeUntil, AfterConsume, NextIs, Trim;
    var open := scanner.Consume('(');
    if !open {
      return Err(ParseError);
    }
    var factorText := scanner.Until(',');
    var comma := scanner.Consume(',');
    if !comma {
      return Err(ParseError);
    }
    var offsetText := scanner.Until(')');
    var close := scanner.Consume(')');
    var factorTrimmed := DbcTrim(factorText);
    var offsetTrimmed := DbcTrim(offsetText);
    var factor, offset := num.parse(factorTrimmed), num.parse(offsetTrimmed);
    if !close || factor.None? || offset.None? || !factor.value.Finite? || !offset.value.Finite? {
      return Err(ParseError);
    }
    return Ok(Scaling(factor.value.value, offset.value.value, scanner.Rest()));
  }

  method DbcParseRange(num: NumberText, scanner: DbcScanner) returns (r: Range)
    requires scanner.Valid()
    modifies scanner
    ensures scanner.Valid() && r == ParseRange(num, old(scanner.Rest())) && scanner.Rest() == r.rest
  {
    hide TakeUntil, AfterConsume, NextIs;
    var minimum, maximum := NegInf, PosInf;
    var open := scanner.Consume('[');
    if open {
      var minText := scanner.Until('|');
      var bar := scanner.Consume('|');
      var minTrimmed := DbcTrim(minText);
      var low := num.parse(minTrimmed);
      if bar && low.Some? {
        var maxText := scanner.Until(']');
        var close := scanner.Consume(']');
        var maxTrimmed := DbcTrim(maxText);
        var high := num.parse(maxTrimmed);
        if close && high.Some? && Less(low.value, high.value) {
          minimum, maximum := low.value, high.value;
        }
      }
    }
    return Range(minimum, maximum, scanner.Rest());
  }

  method DbcParseSignal(num: NumberText, line: string) returns (r: Result<Signal>)
    ensures r == ParseSignal(num, line)
  {
    hide ParseHead, ParseLayout, ParseScaling, ParseRange, TakeToken, NextIs, AfterConsume, TakeUntil;
    HeadErrors(line);
    var scanner := new DbcScanner(line);
    var head := DbcParseHead(scanner);
    if head.Err? {
      return Err(ParseError);
    }
    var layout := scanner.Token();
    LayoutErrors(layout);
    var bits := ParseLayout(layout);
    if bits.Err? {
      return Err(ParseError);
    }
    ScalingErrors(num, scanner.Rest());
    var scaling := DbcParseScaling(num, scanner);
    if scaling.Err? {
      return Err(ParseError);
    }
    var range := DbcParseRange(num, scanner);
    var unit := "";
    var open := scanner.Consume('"');
    if open {
      var text := scanner.Until('"');
      var close := scanner.Consume('"');
      if close {
        unit := text;
      }
    }
    assert unit == ParseUnit(range.rest);
    return Ok(SignalOf(head.value, bits.value, scaling.value, range, unit));
  }

  lemma HeadErrors(line: string)
    ensures ParseHead(line).Err? ==> ParseHead(line) == Err(ParseError)
  {
    hide TakeToken, ParseU32;
  }

  lemma LayoutErrors(layout: string)
    ensures ParseLayout(layout).Err? ==> ParseLayout(layout) == Err(ParseError)
  {
    hide ParseU32, LengthUntil;
  }

  lemma ScalingErrors(num: NumberText, s: string)
    ensures ParseScaling(num, s).Err? ==> ParseScaling(num, s) == Err(ParseError)
  {
    hide TakeUntil, AfterConsume, NextIs;
  }

  // ----- the BO_ line

  datatype Header = Header(id: CanId, name: string, byteLength: u8)

  /** The identifier a raw DBC id stands for; None when it has bits it may not have. */
  function IdOfRaw(raw: u32): Option<CanId> {
    var ident := raw % EXTENDED_FLAG;
    if raw >= EXTENDED_FLAG then
      if ident > 0x1FFF_FFFF then None else Some(ExtendedId(ident))
    else
      if ident > 0x7FF then None else Some(StandardId(ident))
  }

  /** The raw numbers that stand for an identifier, and the identifier each stands for. */
  lemma IdOfRawExactly(raw: u32)
    ensures IdOfRaw(raw)
            == if raw < 0x800 || 0x8000_0000 <= raw < 0xA000_0000 then Some(CanId(raw)) else None
  {
  }

  function ParseMessage(line: string): Result<Header> {
    var keyword := TakeToken(line);
    var raw := TakeToken(keyword.rest);
    var name := TakeUntil(SkipBlanks(raw.rest), ':');
    var dlc := TakeToken(AfterConsume(name.rest, ':'));
    if keyword.text != "BO_" || Trim(name.text) == "" || !NextIs(name.rest, ':') then Err(ParseError)
    else
      match (ParseU32(raw.text), ParseU32(dlc.text))
      case (Some(id), Some(length)) =>
        if length > MAX_FD_LENGTH || IdOfRaw(id).None? then Err(ParseError)
        else Ok(Header(IdOfRaw(id).value, Trim(name.text), length))
      case _ => Err(ParseError)
  }

  method DbcParseMessage(line: string) returns (r: Result<Header>)
    ensures r == ParseMessage(line)
  {
    hide TakeToken, TakeUntil, SkipBlanks, AfterConsume, NextIs, ParseU32, IdOfRaw;
    var scanner := new DbcScanner(line);
    var keyword := scanner.Token();
    if keyword != "BO_" {
      return Err(ParseError);
    }
    var rawText := scanner.Token();
    var raw := ParseU32(rawText);
    if raw.None? {
      return Err(ParseError);
    }
    scanner.SkipSpaces();
    var nameText := scanner.Until(':');
    var name := DbcTrim(nameText);
    if name == "" {
      return Err(ParseError);
    }
    var colon := scanner.Consume(':');
    if !colon {
      return Err(ParseError);
    }
    var dlcText := scanner.Token();
    var dlc := ParseU32(dlcText);
    if dlc.None? || dlc.value > MAX_FD_LENGTH {
      return Err(ParseError);
    }
    var id := IdOfRaw(raw.value);
    if id.None? {
      return Err(ParseError);
    }
    return Ok(Header(id.value, name, dlc.value));
  }
}
