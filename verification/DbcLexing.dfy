/**
 The text primitives pinned down by the characters they stop at: how any text splits
 into what a primitive skips, returns and leaves, and that it splits in no other way.
 */
module DbcLexing {
  import opened Words
  import opened CanTypes
  import opened DbcText

  predicate Blanks(s: string) {
    forall i :: 0 <= i < |s| ==> s[i] == ' ' || s[i] == '\t'
  }

  predicate Trimmings(s: string) {
    forall i :: 0 <= i < |s| ==> Loose(s[i])
  }

  /** A word: not empty, no blank inside. */
  predicate Word(s: string) {
    s != "" && forall i :: 0 <= i < |s| ==> s[i] != ' ' && s[i] != '\t'
  }

  /** What can follow a word. */
  predicate Edge(s: string) {
    s == "" || s[0] == ' ' || s[0] == '\t'
  }

  /** Text that does not start with a blank. */
  predicate Solid(s: string) {
    s == "" || (s[0] != ' ' && s[0] != '\t')
  }

  predicate Loose(c: char) {
    c == ' ' || c == '\t' || c == '\r'
  }

  /** Nothing to trim at either end. */
  predicate Tight(s: string) {
    s == "" || (!Loose(s[0]) && !Loose(s[|s| - 1]))
  }

  // ----- trimming

  lemma {:induction false} TrimLeftReads(a: string, s: string)
    requires Trimmings(a) && (s == "" || !IsTrimmed(s[0]))
    ensures TrimLeft(a + s) == s
  {
    if a == "" {
      assert a + s == s;
    } else {
      assert (a + s)[1..] == a[1..] + s;
      TrimLeftReads(a[1..], s);
    }
  }

  lemma {:induction false} TrimRightReads(s: string, b: string)
    requires Trimmings(b) && (s == "" || !IsTrimmed(s[|s| - 1]))
    ensures TrimRight(s + b) == s
  {
    if b == "" {
      assert s + b == s;
    } else {
      assert (s + b)[..|s + b| - 1] == s + b[..|b| - 1];
      TrimRightReads(s, b[..|b| - 1]);
    }
  }

  lemma {:induction false} AllTrimmed(s: string)
    requires Trimmings(s)
    ensures TrimLeft(s) == ""
  {
    TrimLeftReads(s, "");
    assert s + "" == s;
  }

  /** Spaces, tabs and carriage returns around tight text go, whatever their number. */
  lemma TrimReads(a: string, s: string, b: string)
    requires Trimmings(a) && Tight(s) && Trimmings(b)
    ensures Trim(a + s + b) == s
  {
    hide TrimLeft, TrimRight;
    if s == "" {
      AllTrimmed(a + s + b);
      TrimRightReads("", "");
      assert "" + "" == "";
    } else {
      assert a + s + b == a + (s + b);
      TrimLeftReads(a, s + b);
      TrimRightReads(s, b);
    }
  }

  lemma {:induction false} TrimLeftShape(s: string) returns (a: string)
    ensures Trimmings(a) && s == a + TrimLeft(s)
  {
    if s != "" && IsTrimmed(s[0]) {
      var rest := TrimLeftShape(s[1..]);
      a := [s[0]] + rest;
    } else {
      a := "";
    }
  }

  lemma {:induction false} TrimRightShape(s: string) returns (b: string)
    ensures Trimmings(b) && s == TrimRight(s) + b
  {
    if s != "" && IsTrimmed(s[|s| - 1]) {
      var rest := TrimRightShape(s[..|s| - 1]);
      b := rest + [s[|s| - 1]];
    } else {
      b := "";
    }
  }

  /** And nothing else goes. */
  lemma TrimShape(s: string) returns (a: string, b: string)
    ensures Trimmings(a) && Trimmings(b) && Tight(Trim(s)) && s == a + Trim(s) + b
  {
    hide TrimLeft, TrimRight;
    a := TrimLeftShape(s);
    b := TrimRightShape(TrimLeft(s));
    TrimEnds(s);
  }

  // ----- tokens

  lemma {:induction false} SkipBlanksReads(b: string, s: string)
    requires Blanks(b) && Solid(s)
    ensures SkipBlanks(b + s) == s
  {
    if b == "" {
      assert b + s == s;
    } else {
      assert (b + s)[1..] == b[1..] + s;
      SkipBlanksReads(b[1..], s);
    }
  }

  lemma {:induction false} SkipBlanksShape(s: string) returns (b: string)
    ensures Blanks(b) && s == b + SkipBlanks(s)
    ensures Solid(SkipBlanks(s))
  {
    if s != "" && IsBlank(s[0]) {
      var rest := SkipBlanksShape(s[1..]);
      b := [s[0]] + rest;
    } else {
      b := "";
    }
  }

  /** A word after any blanks, up to a blank or the end, is the token. */
  lemma TokenReads(b: string, word: string, rest: string)
    requires Blanks(b) && Word(word) && Edge(rest)
    ensures TakeToken(b + word + rest) == Piece(word, rest)
  {
    hide SkipBlanks, WordLength;
    assert b + word + rest == b + (word + rest);
    assert (word + rest)[0] == word[0];
    SkipBlanksReads(b, word + rest);
    WordLengthOf(word, rest);
    assert (word + rest)[..|word|] == word && (word + rest)[|word|..] == rest;
  }

  /** And there is no other token. */
  lemma TokenShape(s: string) returns (b: string)
    ensures var t := TakeToken(s);
            && Blanks(b) && s == b + t.text + t.rest && Edge(t.rest)
            && (Word(t.text) || (t.text == "" && t.rest == ""))
  {
    hide SkipBlanks;
    b := SkipBlanksShape(s);
    var t := SkipBlanks(s);
    WordEnds(t);
    WordIsBlankless(t);
  }

  lemma {:induction false} WordEnds(s: string)
    ensures Edge(s[WordLength(s)..])
    ensures s != "" && Solid(s) ==> WordLength(s) > 0
  {
    if s != "" && !IsBlank(s[0]) {
      WordEnds(s[1..]);
      assert s[WordLength(s)..] == s[1..][WordLength(s[1..])..];
    }
  }

  // ----- delimiters

  lemma UntilReads(piece: string, d: char, rest: string)
    requires d !in piece && (rest == "" || rest[0] == d)
    ensures TakeUntil(piece + rest, d) == Piece(piece, rest)
  {
    hide LengthUntil;
    if rest == "" {
      assert piece + rest == piece;
      var n := LengthUntil(piece, d);
      assert n == |piece|;
    } else {
      assert piece + rest == piece + [d] + rest[1..];
      assert [d] + rest[1..] == rest;
      UntilOf(piece, d, rest[1..]);
    }
  }

  lemma UntilShape(s: string, d: char)
    ensures var t := TakeUntil(s, d);
            && s == t.text + t.rest && d !in t.text && (t.rest == "" || t.rest[0] == d)
  {
    hide LengthUntil;
  }

  lemma ConsumeReads(b: string, c: char, rest: string)
    requires Blanks(b) && c != ' ' && c != '\t'
    ensures NextIs(b + [c] + rest, c) && AfterConsume(b + [c] + rest, c) == rest
  {
    hide SkipBlanks;
    assert b + [c] + rest == b + ([c] + rest);
    SkipBlanksReads(b, [c] + rest);
  }

  lemma ConsumeMisses(b: string, c: char, rest: string)
    requires Blanks(b) && Solid(rest) && (rest == "" || rest[0] != c)
    ensures !NextIs(b + rest, c) && AfterConsume(b + rest, c) == rest
  {
    hide SkipBlanks;
    SkipBlanksReads(b, rest);
  }

  lemma ConsumeShape(s: string, c: char) returns (b: string)
    ensures Blanks(b) && s == b + (if NextIs(s, c) then [c] else "") + AfterConsume(s, c)
    ensures !NextIs(s, c) ==>
              Solid(AfterConsume(s, c)) && (AfterConsume(s, c) == "" || AfterConsume(s, c)[0] != c)
  {
    hide SkipBlanks;
    b := SkipBlanksShape(s);
  }

  // ----- whole numbers

  predicate Zeros(s: string) {
    forall i :: 0 <= i < |s| ==> s[i] == '0'
  }

  lemma {:induction false} ValueOfPrinted(z: string, n: nat)
    requires Zeros(z)
    ensures AllDigits(z + Decimal(n)) && DecimalValue(z + Decimal(n)) == n
  {
    if n >= 10 {
      ValueOfPrinted(z, n / 10);
      assert (z + Decimal(n))[..|z + Decimal(n)| - 1] == z + Decimal(n / 10);
    } else {
      ZerosAreZero(z);
      assert (z + Decimal(n))[..|z + Decimal(n)| - 1] == z;
    }
  }

  lemma {:induction false} ZerosAreZero(z: string)
    requires Zeros(z)
    ensures AllDigits(z) && DecimalValue(z) == 0
  {
    if z != "" { ZerosAreZero(z[..|z| - 1]); }
  }

  /** Every digit string is some zeros and then its value, printed. */
  lemma {:induction false} DigitsShape(s: string) returns (z: string)
    requires s != "" && AllDigits(s)
    ensures Zeros(z) && s == z + Decimal(DecimalValue(s))
  {
    var init, d := s[..|s| - 1], s[|s| - 1] as int - '0' as int;
    if init == "" {
      z := "";
      assert DecimalValue(init) == 0 && Decimal(d) == [Digit(d)] == s;
    } else {
      z := DigitsShape(init);
      var v := DecimalValue(init);
      assert s == init + [Digit(d)];
      if v == 0 {
        assert Decimal(0) == "0" && Decimal(d) == [Digit(d)];
        z := z + "0";
      } else {
        assert DecimalValue(s) == 10 * v + d && (10 * v + d) / 10 == v && (10 * v + d) % 10 == d;
        assert Decimal(10 * v + d) == Decimal(v) + [Digit(d)];
      }
    }
  }

  /** A number as it may be written: trimmings, leading zeros, the printed number, trimmings. */
  ghost predicate Writes(text: string, n: u32) {
    exists a, z, b :: Trimmings(a) && Zeros(z) && Trimmings(b) && text == a + (z + Decimal(n)) + b
  }

  lemma DigitsTight(s: string)
    requires AllDigits(s)
    ensures Tight(s)
  {
  }

  /** A text parses to n exactly when it writes n. */
  lemma ParseU32ExactlyWhen(text: string, n: u32)
    ensures ParseU32(text) == Some(n) <==> Writes(text, n)
  {
    hide Trim, Decimal, DecimalValue;
    if ParseU32(text) == Some(n) {
      var a, b := TrimShape(text);
      var z := DigitsShape(Trim(text));
      assert text == a + (z + Decimal(n)) + b;
    }
    if Writes(text, n) {
      var a, z, b :| Trimmings(a) && Zeros(z) && Trimmings(b) && text == a + (z + Decimal(n)) + b;
      ValueOfPrinted(z, n);
      DigitsTight(z + Decimal(n));
      TrimReads(a, z + Decimal(n), b);
    }
  }
}
