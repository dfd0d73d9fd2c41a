/** The text primitives of the DBC parser: trimming, scanning and whole-number parsing. */
module DbcText {
  import opened Words
  import opened CanTypes

  // ----- trimming

  predicate IsTrimmed(c: char) {
    c == ' ' || c == '\t' || c == '\r'
  }

  function TrimLeft(s: string): string {
    if s != [] && IsTrimmed(s[0]) then TrimLeft(s[1..]) else s
  }

  function TrimRight(s: string): string {
    if s != [] && IsTrimmed(s[|s| - 1]) then TrimRight(s[..|s| - 1]) else s
  }

  function Trim(s: string): string {
    TrimRight(TrimLeft(s))
  }

  method DbcTrim(text: string) returns (r: string)
    ensures r == Trim(text)
  {
    var begin := 0;
    while begin < |text| && IsTrimmed(text[begin])
      invariant begin <= |text|
      invariant TrimLeft(text) == TrimLeft(text[begin..])
    {
      begin := begin + 1;
    }
    ghost var left := TrimLeft(text);
    assert left == text[begin..] == text[begin..|text|];
    var end := |text|;
    while end > begin && IsTrimmed(text[end - 1])
      invariant begin <= end <= |text|
      invariant TrimRight(left) == TrimRight(text[begin..end])
    {
      assert text[begin..end][..end - begin - 1] == text[begin..end - 1];
      end := end - 1;
    }
    return text[begin..end];
  }

  /** Text with no blank at either end is left alone. */
  lemma TrimOfTight(s: string)
    requires s == [] || (!IsTrimmed(s[0]) && !IsTrimmed(s[|s| - 1]))
    ensures Trim(s) == s
  {
  }

  /** One leading blank before tight text goes. */
  lemma TrimOfIndented(c: char, s: string)
    requires IsTrimmed(c) && s != [] && !IsTrimmed(s[0]) && !IsTrimmed(s[|s| - 1])
    ensures Trim([c] + s) == s
  {
    assert ([c] + s)[1..] == s;
    TrimOfTight(s);
  }

  /** Trimming leaves no blank at the ends. */
  lemma {:induction false} TrimRightEnds(s: string)
    ensures TrimRight(s) != [] ==> !IsTrimmed(TrimRight(s)[|TrimRight(s)| - 1])
    ensures TrimRight(s) <= s
  {
    if s != [] && IsTrimmed(s[|s| - 1]) { TrimRightEnds(s[..|s| - 1]); }
  }

  lemma {:induction false} TrimLeftEnds(s: string)
    ensures TrimLeft(s) != [] ==> !IsTrimmed(TrimLeft(s)[0])
    ensures forall c :: c in TrimLeft(s) ==> c in s
  {
    if s != [] && IsTrimmed(s[0]) { TrimLeftEnds(s[1..]); }
  }

  lemma TrimEnds(s: string)
    ensures var t := Trim(s);
            && (t != [] ==> !IsTrimmed(t[0]) && !IsTrimmed(t[|t| - 1]))
            && forall c :: c in t ==> c in s
  {
    TrimLeftEnds(s);
    TrimRightEnds(TrimLeft(s));
  }

  // ----- scanning, on the text that remains

  /** What a scan returned and the text after it. */
  datatype Piece = Piece(text: string, rest: string)

  predicate IsBlank(c: char) {
    c == ' ' || c == '\t'
  }

  function SkipBlanks(s: string): string {
    if s != [] && IsBlank(s[0]) then SkipBlanks(s[1..]) else s
  }

  function WordLength(s: string): (n: nat)
    ensures n <= |s|
  {
    if s == [] || IsBlank(s[0]) then 0 else 1 + WordLength(s[1..])
  }

  function TakeToken(s: string): Piece {
    var t := SkipBlanks(s);
    Piece(t[..WordLength(t)], t[WordLength(t)..])
  }

  /** The position of the first d, or the length when there is none. */
  function LengthUntil(s: string, d: char): (n: nat)
    ensures n <= |s|
    ensures n < |s| ==> s[n] == d
    ensures d !in s[..n]
  {
    if s == [] || s[0] == d then 0 else 1 + LengthUntil(s[1..], d)
  }

  function TakeUntil(s: string, d: char): Piece {
    Piece(s[..LengthUntil(s, d)], s[LengthUntil(s, d)..])
  }

  predicate NextIs(s: string, c: char) {
    var t := SkipBlanks(s);
    t != [] && t[0] == c
  }

  /** The text after consuming c; blanks are skipped even when c is not there. */
  function AfterConsume(s: string, c: char): string {
    if NextIs(s, c) then SkipBlanks(s)[1..] else SkipBlanks(s)
  }

  lemma SliceSplits(s: string, i: nat, j: nat)
    requires i <= j <= |s|
    ensures s[i..][j - i..] == s[j..] && s[i..][..j - i] == s[i..j]
  {
  }

  /** A forward cursor over one line. */
  class DbcScanner {
    const text: string
    var pos: nat

    predicate Valid()
      reads this
    {
      pos <= |text|
    }

    function Rest(): string
      requires Valid()
      reads this
    {
      text[pos..]
    }

    constructor (line: string)
      ensures Valid() && Rest() == line
    {
      text, pos := line, 0;
    }

    method SkipSpaces()
      requires Valid()
      modifies this
      ensures Valid() && Rest() == SkipBlanks(old(Rest()))
    {
      while pos < |text| && IsBlank(text[pos])
        invariant Valid() && SkipBlanks(Rest()) == SkipBlanks(old(Rest()))
      {
        assert Rest()[1..] == text[pos + 1..];
        pos := pos + 1;
      }
    }

    method Token() returns (token: string)
      requires Valid()
      modifies this
      ensures Valid() && Piece(token, Rest()) == TakeToken(old(Rest()))
    {
      hide SkipBlanks;
      SkipSpaces();
      ghost var from := Rest();
      var start := pos;
      while pos < |text| && !IsBlank(text[pos])
        invariant start <= pos <= |text|
        invariant WordLength(from) == pos - start + WordLength(text[pos..])
      {
        assert text[pos..][1..] == text[pos + 1..];
        pos := pos + 1;
      }
      assert WordLength(text[pos..]) == 0;
      SliceSplits(text, start, pos);
      return text[start..pos];
    }

    method Until(delimiter: char) returns (piece: string)
      requires Valid()
      modifies this
      ensures Valid() && Piece(piece, Rest()) == TakeUntil(old(Rest()), delimiter)
    {
      hide SkipBlanks, WordLength;
      ghost var from := Rest();
      var start := pos;
      while pos < |text| && text[pos] != delimiter
        invariant start <= pos <= |text|
        invariant LengthUntil(from, delimiter) == pos - start + LengthUntil(text[pos..], delimiter)
      {
        assert text[pos..][1..] == text[pos + 1..];
        pos := pos + 1;
      }
      assert LengthUntil(text[pos..], delimiter) == 0;
      SliceSplits(text, start, pos);
      return text[start..pos];
    }

    method Consume(expected: char) returns (matched: bool)
      requires Valid()
      modifies this
      ensures Valid() && matched == NextIs(old(Rest()), expected)
      ensures Rest() == AfterConsume(old(Rest()), expected)
    {
      SkipSpaces();
      if pos < |text| && text[pos] == expected {
        pos := pos + 1;
        return true;
      }
      return false;
    }
  }

  // ----- whole numbers

  predicate IsDigit(c: char) {
    '0' <= c <= '9'
  }

  predicate AllDigits(s: string) {
    forall i :: 0 <= i < |s| ==> IsDigit(s[i])
  }

  function DecimalValue(s: string): nat
    requires AllDigits(s)
  {
    if s == [] then 0 else 10 * DecimalValue(s[..|s| - 1]) + (s[|s| - 1] as int - '0' as int)
  }

  /** A view that is, trimmed, one unsigned 32-bit decimal number and nothing else. */
  function ParseU32(text: string): Option<u32> {
    var t := Trim(text);
    if t != [] && AllDigits(t) && DecimalValue(t) < 0x1_0000_0000 then Some(DecimalValue(t)) else None
  }

  function Digit(n: nat): char
    requires n < 10
  {
    ('0' as int + n) as char
  }

  function Decimal(n: nat): (s: string)
    ensures s != [] && AllDigits(s)
  {
    if n < 10 then [Digit(n)] else Decimal(n / 10) + [Digit(n % 10)]
  }

  lemma {:induction false} DecimalRoundTrip(n: nat)
    ensures DecimalValue(Decimal(n)) == n
  {
    if n >= 10 { DecimalRoundTrip(n / 10); }
  }

  /** A printed number parses back, whatever is trimmed around it. */
  lemma ParsePrinted(n: u32)
    ensures ParseU32(Decimal(n)) == Some(n)
  {
    hide Decimal, DecimalValue;
    TrimOfTight(Decimal(n));
    DecimalRoundTrip(n);
  }

  // ----- scanning printed text

  predicate Blankless(s: string) {
    forall i :: 0 <= i < |s| ==> !IsBlank(s[i])
  }

  lemma {:induction false} WordLengthOf(word: string, rest: string)
    requires Blankless(word) && (rest == [] || IsBlank(rest[0]))
    ensures WordLength(word + rest) == |word|
  {
    if word != [] {
      assert (word + rest)[1..] == word[1..] + rest;
      WordLengthOf(word[1..], rest);
    } else {
      assert word + rest == rest;
    }
  }

  /** A token printed before a blank or the end is read back whole. */
  lemma TokenOf(word: string, rest: string)
    requires word != [] && Blankless(word) && (rest == [] || IsBlank(rest[0]))
    ensures TakeToken(word + rest) == Piece(word, rest)
    ensures TakeToken(" " + word + rest) == Piece(word, rest)
  {
    WordLengthOf(word, rest);
    assert (word + rest)[0] == word[0];
    assert SkipBlanks(word + rest) == word + rest;
    assert (" " + word + rest)[1..] == word + rest;
    assert (word + rest)[..|word|] == word && (word + rest)[|word|..] == rest;
  }

  lemma {:induction false} UntilOf(piece: string, d: char, rest: string)
    requires d !in piece
    ensures TakeUntil(piece + [d] + rest, d) == Piece(piece, [d] + rest)
  {
    LengthUntilOf(piece, d, rest);
    assert piece + [d] + rest == piece + ([d] + rest);
  }

  lemma {:induction false} LengthUntilOf(piece: string, d: char, rest: string)
    requires d !in piece
    ensures LengthUntil(piece + [d] + rest, d) == |piece|
  {
    if piece != [] {
      assert (piece + [d] + rest)[1..] == piece[1..] + [d] + rest;
      LengthUntilOf(piece[1..], d, rest);
    }
  }

  lemma ConsumeOf(c: char, rest: string)
    requires !IsBlank(c)
    ensures NextIs([c] + rest, c) && AfterConsume([c] + rest, c) == rest
    ensures NextIs(" " + [c] + rest, c) && AfterConsume(" " + [c] + rest, c) == rest
  {
    assert ([c] + rest)[1..] == rest;
    assert (" " + [c] + rest)[1..] == [c] + rest;
  }

  // ----- what a scan can return

  lemma {:induction false} WordIsBlankless(s: string)
    ensures Blankless(s[..WordLength(s)])
  {
    if s != [] && !IsBlank(s[0]) {
      WordIsBlankless(s[1..]);
      assert forall i :: 1 <= i < WordLength(s) ==> s[i] == s[1..][i - 1];
    }
  }
}
