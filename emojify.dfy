/** The `emojify` command (translators/translators.py, lines 287-311): two table
    passes turn letters and seven symbols into emoji, then a chain of `replace`
    calls doubles every space as ideographic spaces, puts a zero-width space around
    every character, spells out the digits and adds the keycap mark to `#` and `*`. */
module Emojify {
  import opened Text
  import opened CharTables

  // `char`, in its two runs
  const Letters: string := "abcdefghijklmnopqrstuvwxyz"
  const Symbols: string := "↓↑←→—.!"
  // `tran`: the regional indicators U+1F1E6..U+1F1FF, then the symbols' emoji
  const Indicators: string :=
    "\U{1F1E6}\U{1F1E7}\U{1F1E8}\U{1F1E9}\U{1F1EA}\U{1F1EB}\U{1F1EC}\U{1F1ED}\U{1F1EE}"
    + "\U{1F1EF}\U{1F1F0}\U{1F1F1}\U{1F1F2}\U{1F1F3}\U{1F1F4}\U{1F1F5}\U{1F1F6}\U{1F1F7}"
    + "\U{1F1F8}\U{1F1F9}\U{1F1FA}\U{1F1FB}\U{1F1FC}\U{1F1FD}\U{1F1FE}\U{1F1FF}"
  const SymbolEmoji: string := "⬇⬆⬅➡➖⏺ℹ"

  const Char: string := Letters + Symbols
  const Tran: string := Indicators + SymbolEmoji

  const ZeroWidthSpace: char := '\U{200B}'
  const IdeographicSpace: char := '\U{3000}'
  const Keycap: char := '\U{20E3}'

  /** The `replace` calls after the zero-width spaces, in the order they run. */
  const DigitRules: seq<(char, string)> := [
    ('0', ":zero:"), ('1', ":one:"), ('2', ":two:"), ('3', ":three:"), ('4', ":four:"),
    ('5', ":five:"), ('6', ":six:"), ('7', ":seven:"), ('8', ":eight:"), ('9', ":nine:"),
    ('#', ['#', Keycap]), ('*', ['*', Keycap])
  ]

  /** `name` after the lower-case and upper-case table passes. */
  function Emojified(message: string): string
  {
    Translate(UpperText(Char), Tran, Translate(Char, Tran, message))
  }

  /** The text after `replace(" ", "　　")`. */
  function Spaced(message: string): string
  {
    Replace(Emojified(message), ' ', [IdeographicSpace, IdeographicSpace])
  }

  /** The reply of `emojify`. */
  function Emojify(message: string): string
  {
    ReplaceAll(Interleave(Spaced(message), ZeroWidthSpace), DigitRules)
  }

  /** What a character should become in the table passes: a Latin letter of either
      case the regional indicator at its alphabet position, each listed symbol its
      emoji, anything else itself. */
  function EmojiOf(c: char): char
  {
    if 'a' <= c <= 'z' then (0x1F1E6 + (c as int - 'a' as int)) as char
    else if 'A' <= c <= 'Z' then (0x1F1E6 + (c as int - 'A' as int)) as char
    else if c == '↓' then '⬇'
    else if c == '↑' then '⬆'
    else if c == '←' then '⬅'
    else if c == '→' then '➡'
    else if c == '—' then '➖'
    else if c == '.' then '⏺'
    else if c == '!' then 'ℹ'
    else c
  }

  /** What the chain of digit and keycap replacements should do, as one dictionary. */
  const Keycaps: map<char, string> := map[
    '0' := ":zero:", '1' := ":one:", '2' := ":two:", '3' := ":three:", '4' := ":four:",
    '5' := ":five:", '6' := ":six:", '7' := ":seven:", '8' := ":eight:", '9' := ":nine:",
    '#' := ['#', Keycap], '*' := ['*', Keycap]
  ]

  lemma LettersGraph()
    ensures |Letters| == |Indicators| == 26
    ensures forall i :: 0 <= i < 26 ==> Indicators[i] == EmojiOf(Letters[i])
    ensures forall i :: 0 <= i < 26 ==> Indicators[i] == EmojiOf(Upper(Letters[i]))
  {
    LettersAt();
    IndicatorsAt();
  }

  /** `char` starts with the alphabet in order ... */
  lemma LettersAt()
    ensures |Letters| == 26
    ensures forall i :: 0 <= i < 26 ==> Letters[i] == ('a' as int + i) as char
  {
  }

  /** ... and `tran` with the regional indicators in the same order. */
  lemma IndicatorsAt()
    ensures |Indicators| == 26
    ensures forall i :: 0 <= i < 26 ==> Indicators[i] == (0x1F1E6 + i) as char
  {
  }

  lemma SymbolsGraph()
    ensures |Symbols| == |SymbolEmoji| == 7
    ensures forall i :: 0 <= i < 7 ==> SymbolEmoji[i] == EmojiOf(Symbols[i])
    ensures forall i :: 0 <= i < 7 ==> Upper(Symbols[i]) == Symbols[i]
  {
  }

  /** Both tables are graphs of `EmojiOf`: each key sits beside its emoji. */
  lemma TablesGraph()
    ensures |Char| == |Tran| == |UpperText(Char)|
    ensures forall i :: 0 <= i < |Char| ==> Tran[i] == EmojiOf(Char[i])
    ensures forall i :: 0 <= i < |Char| ==> Tran[i] == EmojiOf(UpperText(Char)[i])
  {
    LettersGraph();
    SymbolsGraph();
    forall i | 0 <= i < |Char| ensures Tran[i] == EmojiOf(UpperText(Char)[i]) {
      if i < 26 {
        assert Char[i] == Letters[i];
      } else {
        assert Char[i] == Symbols[i - 26];
      }
    }
  }

  lemma LettersCover(c: char)
    requires 'a' <= c <= 'z'
    ensures c in Letters
  {
    LettersAt();
    assert Letters[c as int - 'a' as int] == c;
  }

  /** The keys of the first table: the small letters and the symbols. */
  lemma CharKeys(c: char)
    ensures c in Char <==> 'a' <= c <= 'z' || c in Symbols
  {
    LettersAt();
    if 'a' <= c <= 'z' {
      LettersCover(c);
    }
    if c in Letters {
      var i :| 0 <= i < 26 && Letters[i] == c;
    }
  }

  /** The keys of the second table: the capital letters and the symbols. */
  lemma UpperCharKeys(c: char)
    ensures c in UpperText(Char) <==> 'A' <= c <= 'Z' || c in Symbols
  {
    if c in UpperText(Char) {
      var i :| 0 <= i < |Char| && UpperText(Char)[i] == c;
      CharKeys(Char[i]);
      assert Char[i] in Char;
    }
    if 'A' <= c <= 'Z' {
      LettersCover(Lower(c));
      UpperTextHas(Char, Lower(c));
    } else if c in Symbols {
      var i :| 0 <= i < |Symbols| && Symbols[i] == c;
      assert Char[26 + i] == c;
      UpperTextHas(Char, c);
    }
  }

  /** No emoji of `tran` is a key of the second table, so the second pass leaves the
      first pass's output alone. */
  lemma TranOutsideUpper(x: char)
    requires x in Tran
    ensures x !in UpperText(Char)
  {
    UpperCharKeys(x);
    assert x in Indicators || x in SymbolEmoji;
    if x in Indicators {
      IndicatorsAt();
      var i :| 0 <= i < 26 && Indicators[i] == x;
    } else {
      SymbolEmojiApart(x);
    }
  }

  /** The symbols' emoji are neither symbols nor capital letters. */
  lemma SymbolEmojiApart(x: char)
    requires x in SymbolEmoji
    ensures x !in Symbols && !('A' <= x <= 'Z')
  {
  }

  /** After both passes every character is its `EmojiOf` image: letters of either case
      become regional indicators, the seven symbols their emoji, the rest stays. */
  lemma EmojifiedIsEmojiOf(message: string)
    ensures |Emojified(message)| == |message|
    ensures forall i :: 0 <= i < |message| ==> Emojified(message)[i] == EmojiOf(message[i])
  {
    TablesGraph();
    var first := Translate(Char, Tran, message);
    forall i | 0 <= i < |message| ensures Emojified(message)[i] == EmojiOf(message[i]) {
      var c := message[i];
      LookupGraph(Char, Tran, EmojiOf, c);
      LookupGraph(UpperText(Char), Tran, EmojiOf, first[i]);
      CharKeys(c);
      UpperCharKeys(c);
      if c in Char {
        var j :| 0 <= j < |Char| && Char[j] == c;
        assert first[i] == Tran[j];
        TranOutsideUpper(first[i]);
      }
    }
  }

  /** The chain's rules have distinct keys, and no rule's text holds a later key. */
  lemma RulesIndependent()
    ensures Independent(DigitRules)
  {
    RuleKeysDistinct();
    RuleValuesAvoidKeys();
  }

  lemma RuleKeysDistinct()
    ensures forall i, j :: 0 <= i < j < |DigitRules| ==> DigitRules[i].0 != DigitRules[j].0
  {
  }

  /** Only the `#` rule's value holds a key, its own. */
  lemma RuleValuesAvoidKeys()
    ensures forall i, j :: 0 <= i < j < |DigitRules| ==> DigitRules[j].0 !in DigitRules[i].1
  {
  }

  /** The chain builds exactly the dictionary `Keycaps`. */
  lemma RulesAreKeycaps()
    ensures RulesMap(DigitRules) == Keycaps
  {
    RulesMapFirstSix();
    RulesMapLastSix();
  }

  // Facts about the literal tables are stated one per lemma: each is quick to prove
  // on its own, while several about the same literal in one proof cost the solver
  // far more than their sum.
  lemma RulesMapLastSix()
    ensures RulesMap(DigitRules) == RulesMap(DigitRules[..6])
      ['6' := ":six:"]['7' := ":seven:"]['8' := ":eight:"]['9' := ":nine:"]['#' := ['#', Keycap]]['*' := ['*', Keycap]]
  {
    var r := DigitRules;
    RulesMapStep(r, 7);
    RulesMapStep(r, 8);
    RulesMapStep(r, 9);
    RulesMapStep(r, 10);
    RulesMapStep(r, 11);
    RulesMapStep(r, 12);
    assert |r| == 12;
  }

  lemma RulesMapFirstSix()
    ensures RulesMap(DigitRules[..6]) ==
      map['0' := ":zero:", '1' := ":one:", '2' := ":two:", '3' := ":three:", '4' := ":four:", '5' := ":five:"]
  {
    var r := DigitRules;
    assert r[..0] == [];
    RulesMapStep(r, 1);
    RulesMapStep(r, 2);
    RulesMapStep(r, 3);
    RulesMapStep(r, 4);
    RulesMapStep(r, 5);
    RulesMapStep(r, 6);
  }

  /** The `replace` chain after the zero-width spaces is one left-to-right substitution
      by `Keycaps`: no replacement's output is rewritten by a later call. */
  lemma EmojifyIsSubstitution(message: string)
    ensures Emojify(message) == Substitute(Keycaps, Interleave(Spaced(message), ZeroWidthSpace))
  {
    RulesIndependent();
    ReplaceAllSubstitute(Interleave(Spaced(message), ZeroWidthSpace), DigitRules);
    RulesAreKeycaps();
  }

  /** Before the digit rules, the text starts and ends with a zero-width space and
      has one between every two characters of the spaced text. */
  lemma InterleavedShape(message: string)
    ensures var t := Interleave(Spaced(message), ZeroWidthSpace);
      |t| == 2 * |Spaced(message)| + 1
      && (forall k :: 0 <= k <= |Spaced(message)| ==> t[2 * k] == ZeroWidthSpace)
      && (forall k :: 0 <= k < |Spaced(message)| ==> t[2 * k + 1] == Spaced(message)[k])
  {
    InterleaveShape(Spaced(message), ZeroWidthSpace);
  }

  /** No ASCII digit and no plain space survives: every space became two ideographic
      spaces, every digit its `:name:` text. */
  lemma EmojifyNoDigitsOrSpaces(message: string, x: char)
    requires x in Emojify(message)
    ensures !('0' <= x <= '9') && x != ' '
  {
    EmojifyIsSubstitution(message);
    var t := Interleave(Spaced(message), ZeroWidthSpace);
    SubstituteChars(Keycaps, t, x);
    var i :| 0 <= i < |t| && x in Piece(Keycaps, t[i]);
    if t[i] in Keycaps {
      KeycapValues(t[i], x);
    } else {
      InterleavedNoSpace(message, i);
    }
  }

  /** The replacement texts hold no digit and no space. */
  lemma KeycapValues(k: char, x: char)
    requires k in Keycaps && x in Keycaps[k]
    ensures !('0' <= x <= '9') && x != ' '
  {
  }

  /** Neither the zero-width spaces nor the spaced text bring back a plain space. */
  lemma InterleavedNoSpace(message: string, i: nat)
    requires i < |Interleave(Spaced(message), ZeroWidthSpace)|
    ensures Interleave(Spaced(message), ZeroWidthSpace)[i] != ' '
  {
    var t := Interleave(Spaced(message), ZeroWidthSpace);
    InterleavedShape(message);
    var k := i / 2;
    if i % 2 == 1 {
      assert t[2 * k + 1] == Spaced(message)[k];
      assert Spaced(message)[k] in Spaced(message);
      SpacedNoSpace(message, t[i]);
    } else {
      assert t[2 * k] == ZeroWidthSpace;
    }
  }

  /** The spaced text holds no plain space. */
  lemma SpacedNoSpace(message: string, x: char)
    requires x in Spaced(message)
    ensures x != ' '
  {
    var d := map[' ' := [IdeographicSpace, IdeographicSpace]];
    SubstituteChars(d, Emojified(message), x);
  }

  /** The reply starts and ends with a zero-width space. */
  lemma EmojifyFramed(message: string)
    ensures |Emojify(message)| > 0
    ensures Emojify(message)[0] == ZeroWidthSpace
    ensures Emojify(message)[|Emojify(message)| - 1] == ZeroWidthSpace
  {
    EmojifyIsSubstitution(message);
    var t := Interleave(Spaced(message), ZeroWidthSpace);
    InterleavedShape(message);
    ZeroWidthSpaceKept();
    var n := |t| - 1;
    if n == 0 {
      assert t == [ZeroWidthSpace];
    } else {
      var edge, mid := [ZeroWidthSpace], t[1..n];
      assert t == edge + mid + edge;
      SubstituteAppend(Keycaps, edge + mid, edge);
      SubstituteAppend(Keycaps, edge, mid);
      assert Emojify(message) == edge + Substitute(Keycaps, mid) + edge;
    }
  }

  /** The digit rules leave a zero-width space alone. */
  lemma ZeroWidthSpaceKept()
    ensures Substitute(Keycaps, [ZeroWidthSpace]) == [ZeroWidthSpace]
  {
    assert ZeroWidthSpace !in Keycaps;
    assert [ZeroWidthSpace][1..] == [];
  }
}
