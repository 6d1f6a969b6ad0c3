/** The `leet` and `cs` commands (translators/translators.py, lines 182-260): the
    text is upper-cased, then every key character is replaced by the string its
    dictionary entry drew with `random.choice` when the dictionary was built. */
module Leet {
  import opened Text

  /** One line of a dictionary literal: the key and the strings `random.choice` may
      draw from (a single string when the line has no choice). */
  datatype Entry = Entry(key: char, alternatives: seq<string>)

  /** The draws of one call: index `picks[i]` into the alternatives of entry `i`.
      `random.choice` only ever returns an element of its list. */
  predicate ValidPicks(entries: seq<Entry>, picks: seq<nat>)
  {
    |picks| == |entries| && forall i :: 0 <= i < |entries| ==> picks[i] < |entries[i].alternatives|
  }

  /** The dictionary the literal builds, entry by entry (a later duplicate key
      would win). */
  function Dict(entries: seq<Entry>, picks: seq<nat>): map<char, string>
    requires ValidPicks(entries, picks)
    decreases |entries|
  {
    if entries == [] then map[]
    else
      var n := |entries| - 1;
      Dict(entries[..n], picks[..n])[entries[n].key := entries[n].alternatives[picks[n]]]
  }

  /** No line of the literal offers an empty string. */
  predicate NoEmptyAlternative(entries: seq<Entry>)
  {
    forall i, j :: 0 <= i < |entries| && 0 <= j < |entries[i].alternatives| ==> entries[i].alternatives[j] != []
  }

  /** Then no value of the dictionary is empty. */
  lemma DictNonEmpty(entries: seq<Entry>, picks: seq<nat>)
    requires ValidPicks(entries, picks) && NoEmptyAlternative(entries)
    ensures forall k :: k in Dict(entries, picks) ==> Dict(entries, picks)[k] != []
  {
    forall k | k in Dict(entries, picks) ensures Dict(entries, picks)[k] != [] {
      DictEntry(entries, picks, k);
    }
  }

  /** The dictionary's keys are the entries' keys, and each value is one of the
      alternatives of an entry with that key. */
  lemma {:induction false} DictEntry(entries: seq<Entry>, picks: seq<nat>, k: char)
    requires ValidPicks(entries, picks)
    ensures k in Dict(entries, picks) <==> exists i :: 0 <= i < |entries| && entries[i].key == k
    ensures k in Dict(entries, picks) ==>
      exists i :: 0 <= i < |entries| && entries[i].key == k
        && Dict(entries, picks)[k] == entries[i].alternatives[picks[i]]
    decreases |entries|
  {
    if entries != [] {
      var n := |entries| - 1;
      DictEntry(entries[..n], picks[..n], k);
      if k != entries[n].key {
        if k in Dict(entries, picks) {
          var i :| 0 <= i < n && entries[..n][i].key == k
            && Dict(entries[..n], picks[..n])[k] == entries[..n][i].alternatives[picks[..n][i]];
          assert entries[i].key == k && picks[i] == picks[..n][i];
        }
        if exists i :: 0 <= i < |entries| && entries[i].key == k {
          var i :| 0 <= i < |entries| && entries[i].key == k;
          assert entries[..n][i].key == k;
        }
      }
    }
  }

  predicate AsciiLetter(x: char)
  {
    'a' <= x <= 'z' || 'A' <= x <= 'Z'
  }

  // ---------------------------------------------------------------- leet

  /** `dic` of `_leet`, A to Z in order. */
  const LeetEntries: seq<Entry> := [
    Entry('A', ["/-|", "4"]),
    Entry('B', ["8"]),
    Entry('C', ["(", "["]),
    Entry('D', ["|)"]),
    Entry('E', ["3"]),
    Entry('F', ["|=", "ph"]),
    Entry('G', ["6"]),
    Entry('H', ["|-|"]),
    Entry('I', ["|", "!", "1"]),
    Entry('J', [")"]),
    Entry('K', ["|<", "|("]),
    Entry('L', ["|_", "1"]),
    Entry('M', ["|\\/|", "/\\/\\"]),
    Entry('N', ["|\\|", "/\\/"]),
    Entry('O', ["0", "()"]),
    Entry('P', ["|>"]),
    Entry('Q', ["9", "0"]),
    Entry('R', ["|?", "|2"]),
    Entry('S', ["5", "$"]),
    Entry('T', ["7", "+"]),
    Entry('U', ["|_|"]),
    Entry('V', ["\\/"]),
    Entry('W', ["\\/\\/", "\\X/"]),
    Entry('X', ["*", "><"]),
    Entry('Y', ["'/"]),
    Entry('Z', ["2"])
  ]

  /** The reply of `leet` for the draws `picks`. */
  function Leet(text: string, picks: seq<nat>): string
    requires ValidPicks(LeetEntries, picks)
  {
    Substitute(Dict(LeetEntries, picks), UpperText(text))
  }

  /** Entry `i` is the capital letter at alphabet position `i`. */
  lemma LeetKeyAt(i: nat)
    requires i < |LeetEntries|
    ensures |LeetEntries| == 26
    ensures LeetEntries[i].key == ('A' as int + i) as char
  {
  }

  /** A key of the dictionary takes the alternative drawn for some entry with that
      key; `i` is that entry. */
  lemma DictValueAt(entries: seq<Entry>, picks: seq<nat>, k: char) returns (i: nat)
    requires ValidPicks(entries, picks)
    requires k in Dict(entries, picks)
    ensures i < |entries| && entries[i].key == k
    ensures Dict(entries, picks)[k] == entries[i].alternatives[picks[i]]
  {
    DictEntry(entries, picks, k);
    i :| 0 <= i < |entries| && entries[i].key == k
      && Dict(entries, picks)[k] == entries[i].alternatives[picks[i]];
  }

  /** The keys are exactly the capital letters A to Z. */
  lemma LeetKeys(picks: seq<nat>, c: char)
    requires ValidPicks(LeetEntries, picks)
    ensures c in Dict(LeetEntries, picks) <==> 'A' <= c <= 'Z'
  {
    DictEntry(LeetEntries, picks, c);
    if 'A' <= c <= 'Z' {
      LeetKeyAt(c as int - 'A' as int);
    }
    if c in Dict(LeetEntries, picks) {
      var i :| 0 <= i < |LeetEntries| && LeetEntries[i].key == c;
      LeetKeyAt(i);
    }
  }

  /** What the dictionary makes of `c`: the alternative drawn for its letter, or `c`
      itself when it is not a letter A to Z. */
  function Drawn(picks: seq<nat>, c: char): string
    requires ValidPicks(LeetEntries, picks)
  {
    if 'A' <= c <= 'Z'
    then LeetEntries[c as int - 'A' as int].alternatives[picks[c as int - 'A' as int]]
    else [c]
  }

  /** Each position of the upper-cased text contributes, wherever it stands, what
      its character draws. */
  lemma LeetAt(text: string, picks: seq<nat>, i: nat)
    requires ValidPicks(LeetEntries, picks)
    requires i < |text|
    ensures Leet(text, picks) ==
      Substitute(Dict(LeetEntries, picks), UpperText(text)[..i])
      + Drawn(picks, Upper(text[i]))
      + Substitute(Dict(LeetEntries, picks), UpperText(text)[i + 1..])
  {
    var s := UpperText(text);
    SubstituteAt(Dict(LeetEntries, picks), s, i);
    LeetPiece(picks, s[i]);
  }

  /** The dictionary makes of each character what it draws. */
  lemma LeetPiece(picks: seq<nat>, c: char)
    requires ValidPicks(LeetEntries, picks)
    ensures Piece(Dict(LeetEntries, picks), c) == Drawn(picks, c)
  {
    if 'A' <= c <= 'Z' {
      LeetValue(picks, c);
    } else {
      LeetKeys(picks, c);
    }
  }

  /** Letter `c` draws from its own line, the one at its alphabet position. */
  lemma LeetValue(picks: seq<nat>, c: char)
    requires ValidPicks(LeetEntries, picks)
    requires 'A' <= c <= 'Z'
    ensures c in Dict(LeetEntries, picks)
    ensures Dict(LeetEntries, picks)[c] ==
      LeetEntries[c as int - 'A' as int].alternatives[picks[c as int - 'A' as int]]
  {
    LeetKeys(picks, c);
    var j := DictValueAt(LeetEntries, picks, c);
    LeetKeyAt(j);
    assert j == c as int - 'A' as int;
  }

  /** The only Latin letters any alternative holds are `p` and `h` (second choice
      for F) and `X` (second choice for W). */
  lemma LeetValueLetters(k: nat, j: nat, x: char)
    requires k < |LeetEntries| && j < |LeetEntries[k].alternatives|
    requires x in LeetEntries[k].alternatives[j] && AsciiLetter(x)
    ensures (k == 5 && j == 1 && (x == 'p' || x == 'h')) || (k == 22 && j == 1 && x == 'X')
  {
  }

  /** Every letter of the message is replaced, so a Latin letter in the reply comes
      from a replacement string: `p` or `h` when F drew `ph`, `X` when W drew `\X/`. */
  lemma LeetLetters(text: string, picks: seq<nat>, x: char)
    requires ValidPicks(LeetEntries, picks)
    requires x in Leet(text, picks) && AsciiLetter(x)
    ensures ((x == 'p' || x == 'h') && picks[5] == 1) || (x == 'X' && picks[22] == 1)
  {
    var d := Dict(LeetEntries, picks);
    var s := UpperText(text);
    SubstituteChars(d, s, x);
    var i :| 0 <= i < |s| && x in Piece(d, s[i]);
    LeetKeys(picks, s[i]);
    assert s[i] == Upper(text[i]);
    assert s[i] in d;
    DictEntry(LeetEntries, picks, s[i]);
    var k :| 0 <= k < |LeetEntries| && LeetEntries[k].key == s[i] && d[s[i]] == LeetEntries[k].alternatives[picks[k]];
    LeetValueLetters(k, picks[k], x);
  }

  lemma LeetNoEmptyAlternative()
    ensures NoEmptyAlternative(LeetEntries)
  {
  }

  /** No alternative is empty, so the reply is at least as long as the message. */
  lemma LeetNotShorter(text: string, picks: seq<nat>)
    requires ValidPicks(LeetEntries, picks)
    ensures |Leet(text, picks)| >= |text|
  {
    LeetNoEmptyAlternative();
    DictNonEmpty(LeetEntries, picks);
    SubstituteNotShorter(Dict(LeetEntries, picks), UpperText(text));
  }

  // ---------------------------------------------------------------- cs

  /** `dic_cs`: the 33 capital letters of the Russian alphabet in order, then `%`. */
  const CsEntries: seq<Entry> := [
    Entry('А', ["A"]),
    Entry('Б', ["6"]),
    Entry('В', ["B"]),
    Entry('Г', ["r"]),
    Entry('Д', ["D", "g"]),
    Entry('Е', ["E"]),
    Entry('Ё', ["E"]),
    Entry('Ж', ["}|{", ">|<"]),
    Entry('З', ["3"]),
    Entry('И', ["u", "N"]),
    Entry('Й', ["u*"]),
    Entry('К', ["K"]),
    Entry('Л', ["JI", "/I"]),
    Entry('М', ["M"]),
    Entry('Н', ["H"]),
    Entry('О', ["O"]),
    Entry('П', ["II", "n", "/7"]),
    Entry('Р', ["P"]),
    Entry('С', ["C"]),
    Entry('Т', ["T", "m"]),
    Entry('У', ["Y", "y"]),
    Entry('Ф', ["cp", "(|)", "qp"]),
    Entry('Х', ["X"]),
    Entry('Ц', ["U", "LL", "L|"]),
    Entry('Ч', ["4"]),
    Entry('Ш', ["W", "LLI"]),
    Entry('Щ', ["W", "LLL"]),
    Entry('Ъ', ["~b", "`b"]),
    Entry('Ы', ["bl"]),
    Entry('Ь', ["b"]),
    Entry('Э', ["-)"]),
    Entry('Ю', ["IO", "10"]),
    Entry('Я', ["9", "9I"]),
    Entry('%', ["o\\o"])
  ]

  /** The reply of `cs` for the draws `picks`. */
  function Cs(text: string, picks: seq<nat>): string
    requires ValidPicks(CsEntries, picks)
  {
    Substitute(Dict(CsEntries, picks), UpperText(text))
  }

  predicate RussianLetter(x: char)
  {
    'А' <= x <= 'я' || x == 'Ё' || x == 'ё'
  }

  /** The keys run А..Е, then Ё, then Ж..Я, then `%`. */
  lemma CsKeyAt(i: nat)
    requires i < |CsEntries|
    ensures |CsEntries| == 34
    ensures CsEntries[i].key ==
      if i <= 5 then ('А' as int + i) as char
      else if i == 6 then 'Ё'
      else if i <= 32 then ('А' as int + i - 1) as char
      else '%'
  {
  }

  /** The keys are exactly the capital Russian letters and `%`. */
  lemma CsKeys(picks: seq<nat>, c: char)
    requires ValidPicks(CsEntries, picks)
    ensures c in Dict(CsEntries, picks) <==> 'А' <= c <= 'Я' || c == 'Ё' || c == '%'
  {
    DictEntry(CsEntries, picks, c);
    if 'А' <= c <= 'Е' {
      CsKeyAt(c as int - 'А' as int);
    } else if 'Ж' <= c <= 'Я' {
      CsKeyAt(c as int - 'А' as int + 1);
    } else if c == 'Ё' {
      CsKeyAt(6);
    } else if c == '%' {
      CsKeyAt(33);
    }
    if c in Dict(CsEntries, picks) {
      var i :| 0 <= i < |CsEntries| && CsEntries[i].key == c;
      CsKeyAt(i);
    }
  }

  /** Every alternative is written in ASCII. */
  lemma CsValuesAscii(k: nat, j: nat, x: char)
    requires k < |CsEntries| && j < |CsEntries[k].alternatives|
    requires x in CsEntries[k].alternatives[j]
    ensures x <= '~'
  {
    if k < 12 {
      CsValuesAsciiFirst(k, j, x);
    } else if k < 23 {
      CsValuesAsciiMiddle(k, j, x);
    } else {
      CsValuesAsciiLast(k, j, x);
    }
  }

  // Facts about the literal tables are stated one per lemma: each is quick to prove
  // on its own, while several about the same literal in one proof cost the solver
  // far more than their sum.
  lemma CsValuesAsciiFirst(k: nat, j: nat, x: char)
    requires k < 12 && j < |CsEntries[k].alternatives|
    requires x in CsEntries[k].alternatives[j]
    ensures x <= '~'
  {
  }

  lemma CsValuesAsciiMiddle(k: nat, j: nat, x: char)
    requires 12 <= k < 23 && j < |CsEntries[k].alternatives|
    requires x in CsEntries[k].alternatives[j]
    ensures x <= '~'
  {
  }

  lemma CsValuesAsciiLast(k: nat, j: nat, x: char)
    requires 23 <= k < |CsEntries| && j < |CsEntries[k].alternatives|
    requires x in CsEntries[k].alternatives[j]
    ensures x <= '~'
  {
  }

  /** Whatever a key draws is ASCII. */
  lemma CsPieceAscii(picks: seq<nat>, c: char, x: char)
    requires ValidPicks(CsEntries, picks)
    requires c in Dict(CsEntries, picks) && x in Dict(CsEntries, picks)[c]
    ensures x <= '~'
  {
    var d := Dict(CsEntries, picks);
    DictEntry(CsEntries, picks, c);
    var k :| 0 <= k < |CsEntries| && CsEntries[k].key == c && d[c] == CsEntries[k].alternatives[picks[k]];
    CsValuesAscii(k, picks[k], x);
  }

  /** No Russian letter, of either case, survives: lower case is raised to a key,
      and every replacement is ASCII. */
  lemma CsNoRussian(text: string, picks: seq<nat>, x: char)
    requires ValidPicks(CsEntries, picks)
    requires x in Cs(text, picks)
    ensures !RussianLetter(x)
  {
    var d := Dict(CsEntries, picks);
    var s := UpperText(text);
    SubstituteChars(d, s, x);
    var i :| 0 <= i < |s| && x in Piece(d, s[i]);
    if s[i] in d {
      CsPieceAscii(picks, s[i], x);
    } else {
      CsKeys(picks, s[i]);
      assert x == Upper(text[i]);
    }
  }

  predicate CsKey(c: char)
  {
    'А' <= c <= 'Я' || c == 'Ё' || c == '%'
  }

  /** The line of `dic_cs` whose key is `c`. */
  function CsIndex(c: char): (k: nat)
    requires CsKey(c)
    ensures k < |CsEntries| && CsEntries[k].key == c
  {
    CsKeyAt(0);
    if c == '%' then 33
    else if c == 'Ё' then 6
    else if c <= 'Е' then c as int - 'А' as int
    else c as int - 'А' as int + 1
  }

  /** What the dictionary makes of `c`: the alternative drawn on its line, or `c`
      itself when it is not a key. */
  function CsDrawn(picks: seq<nat>, c: char): string
    requires ValidPicks(CsEntries, picks)
  {
    if CsKey(c) then CsEntries[CsIndex(c)].alternatives[picks[CsIndex(c)]] else [c]
  }

  /** A key draws from its own line. */
  lemma CsValue(picks: seq<nat>, c: char)
    requires ValidPicks(CsEntries, picks)
    requires CsKey(c)
    ensures c in Dict(CsEntries, picks)
    ensures Dict(CsEntries, picks)[c] == CsEntries[CsIndex(c)].alternatives[picks[CsIndex(c)]]
  {
    CsKeys(picks, c);
    var j := DictValueAt(CsEntries, picks, c);
    CsKeyAt(j);
    CsKeyAt(CsIndex(c));
  }

  /** The dictionary makes of each character what it draws. */
  lemma CsPiece(picks: seq<nat>, c: char)
    requires ValidPicks(CsEntries, picks)
    ensures Piece(Dict(CsEntries, picks), c) == CsDrawn(picks, c)
  {
    if CsKey(c) {
      CsValue(picks, c);
    } else {
      CsKeys(picks, c);
    }
  }

  /** Each position of the upper-cased text contributes, wherever it stands, what
      its character draws. */
  lemma CsAt(text: string, picks: seq<nat>, i: nat)
    requires ValidPicks(CsEntries, picks)
    requires i < |text|
    ensures Cs(text, picks) ==
      Substitute(Dict(CsEntries, picks), UpperText(text)[..i])
      + CsDrawn(picks, Upper(text[i]))
      + Substitute(Dict(CsEntries, picks), UpperText(text)[i + 1..])
  {
    var s := UpperText(text);
    SubstituteAt(Dict(CsEntries, picks), s, i);
    CsPiece(picks, s[i]);
  }

  /** `%` is the one key that is not a letter; it always becomes `o\o`. */
  lemma CsPercent(text: string, picks: seq<nat>, i: nat)
    requires ValidPicks(CsEntries, picks)
    requires i < |text| && text[i] == '%'
    ensures Cs(text, picks) ==
      Substitute(Dict(CsEntries, picks), UpperText(text)[..i]) + "o\\o"
      + Substitute(Dict(CsEntries, picks), UpperText(text)[i + 1..])
  {
    CsAt(text, picks, i);
    assert Upper(text[i]) == '%';
    assert CsIndex('%') == 33;
  }

  lemma CsNoEmptyAlternative()
    ensures NoEmptyAlternative(CsEntries)
  {
  }

  /** No alternative is empty, so the reply is at least as long as the message. */
  lemma CsNotShorter(text: string, picks: seq<nat>)
    requires ValidPicks(CsEntries, picks)
    ensures |Cs(text, picks)| >= |text|
  {
    CsNoEmptyAlternative();
    DictNonEmpty(CsEntries, picks);
    SubstituteNotShorter(Dict(CsEntries, picks), UpperText(text));
  }
}
