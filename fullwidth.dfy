/** The `fullwidth` command (translators/translators.py, lines 162-175): one table
    pass from half-width to full-width characters, then the same pass with both
    tables upper-cased. */
module FullWidth {
  import opened Text
  import opened CharTables

  // `halfwidth`, in the three runs it is written in
  const HalfLetters: string := "qwertyuiopasdfghjklzxcvbnm"
  const HalfDigits: string := "1234567890!?"
  const HalfSymbols: string := "@#$%^&*()_+-=<>.,/;:'\"[]{}|\\`~ "
  // `fullwidth`, position by position
  const FullLetters: string := "ｑｗｅｒｔｙｕｉｏｐａｓｄｆｇｈｊｋｌｚｘｃｖｂｎｍ"
  const FullDigits: string := "１２３４５６７８９０！？"
  const FullSymbols: string := "＠＃＄％＾＆＊（）＿＋－＝＜＞．，／；：＇＂［］｛｝｜＼｀～　"

  const HalfWidth: string := HalfLetters + HalfDigits + HalfSymbols
  const FullWidth: string := FullLetters + FullDigits + FullSymbols

  /** The reply of `fullwidth`. */
  function FullWidthText(text: string): string
  {
    Translate(UpperText(HalfWidth), UpperText(FullWidth), Translate(HalfWidth, FullWidth, text))
  }

  /** The full-width form Unicode gives a printable ASCII character: U+3000 for the
      space, the character plus 0xFEE0 for `!`..`~`; anything else has none. */
  function Wide(c: char): char
  {
    if c == ' ' then '\U{3000}'
    else if '!' <= c <= '~' then (c as int + 0xFEE0) as char
    else c
  }

  predicate PrintableAscii(c: char)
  {
    ' ' <= c <= '~'
  }

  lemma LettersGraph()
    ensures forall i :: 0 <= i < |HalfLetters| ==> FullLetters[i] == Wide(HalfLetters[i])
    ensures |HalfLetters| == |FullLetters| == 26
  {
  }

  lemma DigitsGraph()
    ensures forall i :: 0 <= i < |HalfDigits| ==> FullDigits[i] == Wide(HalfDigits[i])
    ensures |HalfDigits| == |FullDigits| == 12
  {
  }

  lemma SymbolsGraph()
    ensures forall i :: 0 <= i < |HalfSymbols| ==> FullSymbols[i] == Wide(HalfSymbols[i])
    ensures |HalfSymbols| == |FullSymbols| == 31
  {
  }

  /** Every pair of the table is a printable ASCII character and its full-width
      form. */
  lemma TableIsWide()
    ensures |HalfWidth| == |FullWidth|
    ensures forall i :: 0 <= i < |HalfWidth| ==> FullWidth[i] == Wide(HalfWidth[i])
  {
    LettersGraph();
    DigitsGraph();
    SymbolsGraph();
  }

  lemma LettersCover(c: char)
    requires 'a' <= c <= 'z'
    ensures c in HalfLetters
  {
  }

  lemma DigitsCover(c: char)
    requires '0' <= c <= '9' || c == '!' || c == '?'
    ensures c in HalfDigits
  {
  }

  lemma SymbolsCover(c: char)
    requires PrintableAscii(c) && !('a' <= c <= 'z') && !('A' <= c <= 'Z') && !('0' <= c <= '9')
    requires c != '!' && c != '?'
    ensures c in HalfSymbols
  {
  }

  lemma TableIsAscii(c: char)
    requires c in HalfWidth
    ensures PrintableAscii(c) && !('A' <= c <= 'Z')
  {
    assert c in HalfLetters + HalfDigits || c in HalfSymbols;
    if c in HalfLetters {
      LettersAscii(c);
    } else if c in HalfDigits {
      DigitsAscii(c);
    } else {
      SymbolsAscii(c);
    }
  }

  // Facts about the literal tables are stated one per lemma: each is quick to prove
  // on its own, while several about the same literal in one proof cost the solver
  // far more than their sum.
  lemma LettersAscii(c: char)
    requires c in HalfLetters
    ensures 'a' <= c <= 'z'
  {
  }

  lemma DigitsAscii(c: char)
    requires c in HalfDigits
    ensures '!' <= c <= '?'
  {
  }

  lemma SymbolsAscii(c: char)
    requires c in HalfSymbols
    ensures PrintableAscii(c) && !('A' <= c <= 'Z') && !('a' <= c <= 'z')
  {
  }

  /** The keys of the first table are exactly the printable ASCII characters other
      than the capital letters. */
  lemma TableKeys(c: char)
    ensures c in HalfWidth <==> PrintableAscii(c) && !('A' <= c <= 'Z')
  {
    if c in HalfWidth {
      TableIsAscii(c);
    } else if 'a' <= c <= 'z' {
      LettersCover(c);
    } else if '0' <= c <= '9' || c == '!' || c == '?' {
      DigitsCover(c);
    } else if PrintableAscii(c) && !('A' <= c <= 'Z') {
      SymbolsCover(c);
    }
  }

  /** The upper-cased table pairs each key with its full-width form too. */
  lemma UpperTableIsWide()
    ensures |UpperText(HalfWidth)| == |UpperText(FullWidth)|
    ensures forall i :: 0 <= i < |HalfWidth| ==> UpperText(FullWidth)[i] == Wide(UpperText(HalfWidth)[i])
  {
    TableIsWide();
    forall i | 0 <= i < |HalfWidth| ensures Upper(FullWidth[i]) == Wide(Upper(HalfWidth[i])) {
      assert HalfWidth[i] in HalfWidth;
      TableIsAscii(HalfWidth[i]);
      WideUpper(HalfWidth[i]);
    }
  }

  /** Widening commutes with upper-casing on printable ASCII. */
  lemma WideUpper(c: char)
    requires PrintableAscii(c)
    ensures Upper(Wide(c)) == Wide(Upper(c))
  {
  }

  lemma UpperTableIsAscii(c: char)
    requires c in UpperText(HalfWidth)
    ensures PrintableAscii(c) && !('a' <= c <= 'z')
  {
    var i :| 0 <= i < |HalfWidth| && c == Upper(HalfWidth[i]);
    TableKeys(HalfWidth[i]);
  }

  lemma UpperTableCovers(c: char)
    requires PrintableAscii(c) && !('a' <= c <= 'z')
    ensures c in UpperText(HalfWidth)
  {
    var h := Lower(c);
    CaseRoundTrip(c);
    assert Upper(h) == c;
    TableKeys(h);
    UpperTextHas(HalfWidth, h);
  }

  /** The keys of the upper-cased table are the printable ASCII characters other than
      the small letters. */
  lemma UpperTableKeys(c: char)
    ensures c in UpperText(HalfWidth) <==> PrintableAscii(c) && !('a' <= c <= 'z')
  {
    if c in UpperText(HalfWidth) {
      UpperTableIsAscii(c);
    }
    if PrintableAscii(c) && !('a' <= c <= 'z') {
      UpperTableCovers(c);
    }
  }

  /** Each character is replaced by its full-width form: printable ASCII `c` becomes
      `c + 0xFEE0`, the space U+3000, and every other character is kept. */
  lemma FullWidthIsWide(text: string)
    ensures |FullWidthText(text)| == |text|
    ensures forall i :: 0 <= i < |text| ==> FullWidthText(text)[i] == Wide(text[i])
  {
    TableIsWide();
    UpperTableIsWide();
    var first := Translate(HalfWidth, FullWidth, text);
    forall i | 0 <= i < |text| ensures FullWidthText(text)[i] == Wide(text[i]) {
      var c := text[i];
      LookupGraph(HalfWidth, FullWidth, Wide, c);
      TableKeys(c);
      LookupGraph(UpperText(HalfWidth), UpperText(FullWidth), Wide, first[i]);
      UpperTableKeys(first[i]);
    }
  }

  /** Every character of the half-width table, in either case, is replaced by the
      full-width character at the same position. */
  lemma FullWidthTable(i: nat)
    requires i < |HalfWidth|
    ensures FullWidthText([HalfWidth[i]]) == [FullWidth[i]]
    ensures FullWidthText([Upper(HalfWidth[i])]) == [Upper(FullWidth[i])]
  {
    TableIsWide();
    UpperTableIsWide();
    FullWidthIsWide([HalfWidth[i]]);
    FullWidthIsWide([Upper(HalfWidth[i])]);
  }

  /** Converting the reply again changes nothing. */
  lemma FullWidthIdempotent(text: string)
    ensures FullWidthText(FullWidthText(text)) == FullWidthText(text)
  {
    FullWidthIsWide(text);
    FullWidthIsWide(FullWidthText(text));
  }
}
