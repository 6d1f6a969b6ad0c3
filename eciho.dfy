/** The `eciho` command (translators/translators.py, lines 116-139): two Cyrillic
    table passes, a collapse of repeated characters, then two Latin table passes. */
module Eciho {
  import opened Text
  import opened CharTables

  const CyrillicKeys: string := "сзчшщжуюваёяэкгфйыъьд"
  const CyrillicValues: string := "ццццццооооееехххииииб"
  const LatinKeys: string := "uavwjyqkhfxdzs"
  const LatinValues: string := "ooooiigggggbcc"

  /** The text after the lower- and upper-case Cyrillic passes and the `groupby`
      collapse, which applies to every character, Cyrillic or not. */
  function Collapsed(text: string): (r: string)
    ensures RunFree(r)
    ensures |r| <= |text|
  {
    var t := Translate(CyrillicKeys, CyrillicValues, text);
    Collapse(Translate(UpperText(CyrillicKeys), UpperText(CyrillicValues), t))
  }

  /** The reply of `eciho`: the collapsed text after the lower- and upper-case Latin
      passes. */
  function Eciho(text: string): (r: string)
    ensures |r| <= |text|
  {
    var t := Translate(LatinKeys, LatinValues, Collapsed(text));
    Translate(UpperText(LatinKeys), UpperText(LatinValues), t)
  }

  predicate Disjoint(a: string, b: string)
  {
    forall x :: x in a ==> x !in b
  }

  predicate AllIn(s: string, lo: char, hi: char, extra: char)
  {
    forall x :: x in s ==> lo <= x <= hi || x == extra
  }

  /** The upper-case image of two disjoint lower-case tables is disjoint again, since
      `Upper` is one-to-one on lower-case letters. */
  lemma UpperDisjoint(a: string, b: string)
    requires forall x :: x in a ==> IsLowerLetter(x)
    requires forall x :: x in b ==> IsLowerLetter(x)
    requires Disjoint(a, b)
    ensures Disjoint(UpperText(a), UpperText(b))
  {
    forall x | x in UpperText(a) ensures x !in UpperText(b) {
      var i :| 0 <= i < |a| && x == Upper(a[i]);
      assert a[i] in a;
      CaseRoundTrip(a[i]);
      forall j | 0 <= j < |b| ensures UpperText(b)[j] != x {
        assert b[j] in b;
        CaseRoundTrip(b[j]);
      }
    }
  }

  /** Upper-casing a table of lower-case letters from one alphabet gives upper-case
      letters of that alphabet. */
  lemma UpperRange(s: string, lo: char, hi: char, extra: char)
    requires AllIn(s, lo, hi, extra)
    requires ('a' <= lo && hi <= 'z' && extra == lo) || (lo == 'а' && hi == 'я' && extra == 'ё')
    ensures AllIn(UpperText(s), Upper(lo), Upper(hi), Upper(extra))
  {
    forall x | x in UpperText(s) ensures Upper(lo) <= x <= Upper(hi) || x == Upper(extra) {
      var i :| 0 <= i < |s| && x == Upper(s[i]);
      assert s[i] in s;
    }
  }

  /** Both Cyrillic tables hold lower-case Cyrillic letters, and no value is a key. */
  lemma CyrillicFacts()
    ensures AllIn(CyrillicKeys, 'а', 'я', 'ё') && AllIn(CyrillicValues, 'а', 'я', 'ё')
    ensures Disjoint(CyrillicValues, CyrillicKeys)
  {
    CyrillicKeysRange();
    CyrillicValuesRange();
    CyrillicValueLetters();
    TseNotCyrillicKey();
    ONotCyrillicKey();
    IeNotCyrillicKey();
    HaNotCyrillicKey();
    INotCyrillicKey();
    BeNotCyrillicKey();
  }

  lemma CyrillicKeysRange()
    ensures AllIn(CyrillicKeys, 'а', 'я', 'ё')
  {
  }

  lemma CyrillicValuesRange()
    ensures AllIn(CyrillicValues, 'а', 'я', 'ё')
  {
  }

  /** The Cyrillic values use six letters only. */
  lemma CyrillicValueLetters()
    ensures forall x :: x in CyrillicValues ==> x in "цоехиб"
  {
  }

  // Facts about the literal tables are stated one per lemma: each is quick to prove
  // on its own, while several about the same literal in one proof cost the solver
  // far more than their sum.
  lemma TseNotCyrillicKey()
    ensures 'ц' !in CyrillicKeys
  {
  }

  lemma ONotCyrillicKey()
    ensures 'о' !in CyrillicKeys
  {
  }

  lemma IeNotCyrillicKey()
    ensures 'е' !in CyrillicKeys
  {
  }

  lemma HaNotCyrillicKey()
    ensures 'х' !in CyrillicKeys
  {
  }

  lemma INotCyrillicKey()
    ensures 'и' !in CyrillicKeys
  {
  }

  lemma BeNotCyrillicKey()
    ensures 'б' !in CyrillicKeys
  {
  }

  /** Both Latin tables hold lower-case Latin letters, and no value is a key. */
  lemma LatinFacts()
    ensures AllIn(LatinKeys, 'a', 'z', 'a') && AllIn(LatinValues, 'a', 'z', 'a')
    ensures Disjoint(LatinValues, LatinKeys)
  {
    LatinKeysRange();
    LatinValuesRange();
    LatinValueLetters();
    LatinKeysAvoid();
  }

  lemma LatinKeysRange()
    ensures AllIn(LatinKeys, 'a', 'z', 'a')
  {
  }

  lemma LatinValuesRange()
    ensures AllIn(LatinValues, 'a', 'z', 'a')
  {
  }

  /** The Latin values use five letters only ... */
  lemma LatinValueLetters()
    ensures forall x :: x in LatinValues ==> x in "oigbc"
  {
  }

  /** ... none of which is a key. */
  lemma LatinKeysAvoid()
    ensures forall x :: x in "oigbc" ==> x !in LatinKeys
  {
  }

  /** The four tables' keys and values fall into four separate alphabets (lower and
      upper Cyrillic, lower and upper Latin), and no table's values are its own keys. */
  lemma TableFacts()
    ensures AllIn(CyrillicKeys, 'а', 'я', 'ё') && AllIn(CyrillicValues, 'а', 'я', 'ё')
    ensures AllIn(UpperText(CyrillicKeys), 'А', 'Я', 'Ё') && AllIn(UpperText(CyrillicValues), 'А', 'Я', 'Ё')
    ensures AllIn(LatinKeys, 'a', 'z', 'a') && AllIn(LatinValues, 'a', 'z', 'a')
    ensures AllIn(UpperText(LatinKeys), 'A', 'Z', 'A') && AllIn(UpperText(LatinValues), 'A', 'Z', 'A')
    ensures Disjoint(CyrillicValues, CyrillicKeys) && Disjoint(LatinValues, LatinKeys)
    ensures Disjoint(UpperText(CyrillicValues), UpperText(CyrillicKeys))
    ensures Disjoint(UpperText(LatinValues), UpperText(LatinKeys))
  {
    CyrillicFacts();
    LatinFacts();
    UpperRange(CyrillicKeys, 'а', 'я', 'ё');
    UpperRange(CyrillicValues, 'а', 'я', 'ё');
    UpperRange(LatinKeys, 'a', 'z', 'a');
    UpperRange(LatinValues, 'a', 'z', 'a');
    UpperDisjoint(CyrillicValues, CyrillicKeys);
    UpperDisjoint(LatinValues, LatinKeys);
  }

  /** No character of any of the four source tables, in either case, survives in the
      reply: every table's values are outside every earlier or equal table's keys. */
  lemma EcihoAvoidsKeys(text: string)
    ensures forall x :: x in Eciho(text) ==>
      x !in CyrillicKeys && x !in UpperText(CyrillicKeys) && x !in LatinKeys && x !in UpperText(LatinKeys)
  {
    TableFacts();
    var s1 := Translate(CyrillicKeys, CyrillicValues, text);
    var s2 := Translate(UpperText(CyrillicKeys), UpperText(CyrillicValues), s1);
    var s3 := Translate(LatinKeys, LatinValues, Collapsed(text));
    TranslateChars(CyrillicKeys, CyrillicValues, text);
    TranslateChars(UpperText(CyrillicKeys), UpperText(CyrillicValues), s1);
    TranslateChars(LatinKeys, LatinValues, Collapsed(text));
    TranslateChars(UpperText(LatinKeys), UpperText(LatinValues), s3);
    assert forall x :: x in Collapsed(text) ==> x in s2;
  }

  /** The collapse runs before the Latin passes, so the reply itself may repeat a
      character: "ua" keeps both letters through the collapse and both become "o". */
  lemma EcihoRepeatsAfterCollapse()
    ensures Collapsed("ua") == "ua"
    ensures Eciho("ua") == "oo"
  {
    TableFacts();
    LookupAbsent(CyrillicKeys, CyrillicValues, 'u');
    LookupAbsent(CyrillicKeys, CyrillicValues, 'a');
    LookupAbsent(UpperText(CyrillicKeys), UpperText(CyrillicValues), 'u');
    LookupAbsent(UpperText(CyrillicKeys), UpperText(CyrillicValues), 'a');
    assert Translate(UpperText(CyrillicKeys), UpperText(CyrillicValues),
      Translate(CyrillicKeys, CyrillicValues, "ua")) == "ua";
    LookupAt(LatinKeys, LatinValues, 0);
    LookupAt(LatinKeys, LatinValues, 1);
    assert Translate(LatinKeys, LatinValues, "ua") == "oo";
    LookupAbsent(UpperText(LatinKeys), UpperText(LatinValues), 'o');
  }

  /** The collapse is not limited to Cyrillic: a doubled Latin letter that no table
      touches, or a doubled digit, is written once. */
  lemma EcihoCollapsesEveryAlphabet()
    ensures Eciho("ll") == "l"
    ensures Eciho("11") == "1"
  {
    TableFacts();
    LookupAbsent(CyrillicKeys, CyrillicValues, 'l');
    LookupAbsent(UpperText(CyrillicKeys), UpperText(CyrillicValues), 'l');
    LookupAbsent(LatinKeys, LatinValues, 'l');
    LookupAbsent(UpperText(LatinKeys), UpperText(LatinValues), 'l');
    assert Collapse("ll") == "l";
    LookupAbsent(CyrillicKeys, CyrillicValues, '1');
    LookupAbsent(UpperText(CyrillicKeys), UpperText(CyrillicValues), '1');
    LookupAbsent(LatinKeys, LatinValues, '1');
    LookupAbsent(UpperText(LatinKeys), UpperText(LatinValues), '1');
    assert Collapse("11") == "1";
  }
}
