/** The `fliptext` command (translators/translators.py, lines 141-160): casefold,
    map each character through a table built from `up + down` and `down + up`,
    reverse, then expand four Cyrillic letters into two code points each. */
module FlipText {
  import opened Text
  import opened CharTables

  // `up`, in its three alphabets
  const UpLatin: string := "abcdefghijklmnopqrstuvwxyz"
  const UpCyrillic: string := "абвгдежзиклмнопрстуфхцчшщъьэя"
  const UpPunctuation: string := ".,!?()"
  // `down`, the same positions turned upside down
  const DownLatin: string := "ɐqɔpǝɟƃɥıɾʞlɯuodᕹɹsʇnʌʍxʎz"
  const DownCyrillic: string := "ɐƍʚɹɓǝжεиʞvwноudɔɯʎȸхǹҺmmqqєʁ"
  const DownPunctuation: string := "˙‘¡¿)("

  const Up: string := UpLatin + UpCyrillic + UpPunctuation
  const Down: string := DownLatin + DownCyrillic + DownPunctuation

  /** `dic`: the four letters missing from `up`, each with its two-code-point
      replacement (a base letter and a combining mark for ё and й). */
  const Clusters: map<char, string> :=
    map['ю' := "oı", 'ы' := "ıq", 'ё' := "ǝ\U{0324}", 'й' := "n\U{032F}"]

  const ClusterLetters: set<char> := {'ю', 'ы', 'ё', 'й'}

  /** The entry of `str.maketrans(up + down, down + up)` for `c`, or `c` itself. */
  function FlipChar(c: char): char
  {
    MapChar(Up + Down, Down + Up, c)
  }

  /** The text before cluster expansion: `text.casefold().translate(table)[::-1]`. */
  function Flipped(text: string): string
  {
    Reverse(Translate(Up + Down, Down + Up, CaseFold(text)))
  }

  /** The reply of `fliptext`. */
  function FlipText(text: string): string
  {
    Substitute(Clusters, Flipped(text))
  }

  /** Reading the table from its last pairs backwards: a character of `down` takes
      the `up` letter paired with its last occurrence in `down`; only a character
      of `up` that is nowhere in `down` takes its `down` partner. */
  lemma FlipCharSplit(c: char)
    ensures FlipChar(c) ==
      if c in DownPunctuation then MapChar(DownPunctuation, UpPunctuation, c)
      else if c in DownCyrillic then MapChar(DownCyrillic, UpCyrillic, c)
      else if c in DownLatin then MapChar(DownLatin, UpLatin, c)
      else if c in UpPunctuation then MapChar(UpPunctuation, DownPunctuation, c)
      else if c in UpCyrillic then MapChar(UpCyrillic, DownCyrillic, c)
      else if c in UpLatin then MapChar(UpLatin, DownLatin, c)
      else c
  {
    LookupAppend(Up, Down, Down, Up, c);
    LookupAppend(DownLatin + DownCyrillic, UpLatin + UpCyrillic, DownPunctuation, UpPunctuation, c);
    LookupAppend(DownLatin, UpLatin, DownCyrillic, UpCyrillic, c);
    LookupAppend(UpLatin + UpCyrillic, DownLatin + DownCyrillic, UpPunctuation, DownPunctuation, c);
    LookupAppend(UpLatin, DownLatin, UpCyrillic, DownCyrillic, c);
    LookupAbsent(UpLatin, DownLatin, c);
  }

  /** Because a later duplicate key wins, the table does not send Latin `u` to `n`,
      its partner in the Latin half, but to Cyrillic `п`, the `up` letter paired with
      the last `u` of `down`. */
  lemma FlipCharU()
    ensures FlipChar('u') == 'п'
  {
    FlipCharSplit('u');
    LookupAt(DownCyrillic, UpCyrillic, 14);
  }

  /** `b` flips to `q` ... */
  lemma FlipCharB()
    ensures FlipChar('b') == 'q'
  {
    BOutsideDown();
    FlipCharSplit('b');
    LookupAt(UpLatin, DownLatin, 1);
  }

  lemma BOutsideDown()
    ensures 'b' !in Down && 'b' !in UpPunctuation && 'b' !in UpCyrillic
  {
    BOutsideDownLatin();
    BOutsideDownCyrillic();
  }

  // Facts about the literal tables are stated one per lemma: each is quick to prove
  // on its own, while several about the same literal in one proof cost the solver
  // far more than their sum.
  lemma BOutsideDownLatin()
    ensures 'b' !in DownLatin
  {
  }

  lemma BOutsideDownCyrillic()
    ensures 'b' !in DownCyrillic
  {
  }

  /** ... but `q` flips on to Cyrillic `ь`, the `up` letter paired with the last `q`
      of `down`. */
  lemma FlipCharQ()
    ensures FlipChar('q') == 'ь'
  {
    FlipCharSplit('q');
    LookupAt(DownCyrillic, UpCyrillic, 26);
  }

  /** Flipping twice does not give `b` back: the table is not an involution. */
  lemma FlipCharNotInvolution()
    ensures FlipChar(FlipChar('b')) != 'b'
  {
    FlipCharB();
    FlipCharQ();
  }

  /** The cluster letters are not in `up` ... */
  lemma ClustersNotInUp(x: char)
    requires x in ClusterLetters
    ensures x !in Up
  {
    UpLatinOutsideCyrillic();
    ClustersNotIn(x, UpLatin);
    ClustersNotInUpCyrillic(x);
    UpPunctuationOutsideCyrillic();
    ClustersNotIn(x, UpPunctuation);
  }

  /** ... nor in `down`, so they are neither keys nor values of the table. */
  lemma ClustersNotInDown(x: char)
    requires x in ClusterLetters
    ensures x !in Down
  {
    DownLatinOutsideCyrillic();
    ClustersNotIn(x, DownLatin);
    ClustersNotInDownCyrillic(x);
    DownPunctuationOutsideCyrillic();
    ClustersNotIn(x, DownPunctuation);
  }

  /** No character of `chunk` lies in the Cyrillic range where the cluster letters
      are. */
  predicate OutsideCyrillic(chunk: string)
  {
    forall i :: 0 <= i < |chunk| ==> chunk[i] < 'Ѐ' || 'ё' < chunk[i]
  }

  lemma ClustersNotIn(x: char, chunk: string)
    requires x in ClusterLetters
    requires OutsideCyrillic(chunk)
    ensures x !in chunk
  {
  }

  // The Latin and punctuation chunks lie outside the Cyrillic block, one chunk per
  // lemma.
  lemma UpLatinOutsideCyrillic()
    ensures OutsideCyrillic(UpLatin)
  {
  }

  lemma UpPunctuationOutsideCyrillic()
    ensures OutsideCyrillic(UpPunctuation)
  {
  }

  lemma DownLatinOutsideCyrillic()
    ensures OutsideCyrillic(DownLatin)
  {
  }

  lemma DownPunctuationOutsideCyrillic()
    ensures OutsideCyrillic(DownPunctuation)
  {
  }

  lemma ClustersNotInUpCyrillic(x: char)
    requires x in ClusterLetters
    ensures x !in UpCyrillic
  {
    if x == 'ю' {
      YuNotInUpCyrillic();
    } else if x == 'ы' {
      YeryNotInUpCyrillic();
    } else if x == 'ё' {
      YoNotInUpCyrillic();
    } else {
      ShortINotInUpCyrillic();
    }
  }

  // Facts about the literal tables are stated one per lemma: each is quick to prove
  // on its own, while several about the same literal in one proof cost the solver
  // far more than their sum.
  lemma YuNotInUpCyrillic()
    ensures 'ю' !in UpCyrillic
  {
  }

  lemma YeryNotInUpCyrillic()
    ensures 'ы' !in UpCyrillic
  {
  }

  lemma YoNotInUpCyrillic()
    ensures 'ё' !in UpCyrillic
  {
  }

  lemma ShortINotInUpCyrillic()
    ensures 'й' !in UpCyrillic
  {
  }

  lemma ClustersNotInDownCyrillic(x: char)
    requires x in ClusterLetters
    ensures x !in DownCyrillic
  {
    if x == 'ю' {
      YuNotInDownCyrillic();
    } else if x == 'ы' {
      YeryNotInDownCyrillic();
    } else if x == 'ё' {
      YoNotInDownCyrillic();
    } else {
      ShortINotInDownCyrillic();
    }
  }

  lemma YuNotInDownCyrillic()
    ensures 'ю' !in DownCyrillic
  {
  }

  lemma YeryNotInDownCyrillic()
    ensures 'ы' !in DownCyrillic
  {
  }

  lemma YoNotInDownCyrillic()
    ensures 'ё' !in DownCyrillic
  {
  }

  lemma ShortINotInDownCyrillic()
    ensures 'й' !in DownCyrillic
  {
  }

  /** `down` holds the capital Һ, but the text is casefolded before the table is
      applied, so that key is never reached: Һ becomes the small һ, which is in
      neither `up` nor `down` and is kept. */
  lemma FlipTextFoldsShha()
    ensures FlipText("Һ") == "һ"
  {
    ShhaOutsideUp();
    ShhaOutsideDown();
    LookupAbsent(Up + Down, Down + Up, 'һ');
    assert CaseFold("Һ") == "һ";
    assert Flipped("Һ") == "һ";
    assert "һ"[1..] == [];
  }

  lemma ShhaOutsideUp()
    ensures 'һ' !in Up
  {
    assert 'һ' !in UpLatin;
    assert 'һ' !in UpCyrillic;
    assert 'һ' !in UpPunctuation;
  }

  lemma ShhaOutsideDown()
    ensures 'һ' !in Down
  {
    assert 'һ' !in DownLatin;
    assert 'һ' !in DownCyrillic;
    assert 'һ' !in DownPunctuation;
  }

  /** A character flips to a cluster letter exactly when it is one. */
  lemma FlipCharClusters(c: char)
    ensures FlipChar(c) in ClusterLetters <==> c in ClusterLetters
  {
    if c in ClusterLetters {
      ClustersNotInUp(c);
      ClustersNotInDown(c);
    }
    if FlipChar(c) in ClusterLetters {
      ClustersNotInUp(FlipChar(c));
      ClustersNotInDown(FlipChar(c));
    }
    LookupAbsent(Up + Down, Down + Up, c);
    LookupImage(Up + Down, Down + Up, c);
  }

  /** Before expansion, the result is the casefolded text read backwards, each
      character mapped through the table. */
  lemma FlippedAt(text: string, i: nat)
    requires i < |text|
    ensures |Flipped(text)| == |text|
    ensures Flipped(text)[i] == FlipChar(Lower(text[|text| - 1 - i]))
  {
  }

  /** The reply holds none of ю, ы, ё, й: each was replaced by its two code points,
      and no replacement contains one of them. */
  lemma FlipTextNoClusters(text: string)
    ensures forall x :: x in FlipText(text) ==> x !in ClusterLetters
  {
    forall x | x in FlipText(text) ensures x !in ClusterLetters {
      SubstituteChars(Clusters, Flipped(text), x);
      var i :| 0 <= i < |Flipped(text)| && x in Piece(Clusters, Flipped(text)[i]);
    }
  }

  /** The reply is longer than the casefolded text by one code point per cluster
      letter in it. */
  lemma FlipTextLength(text: string)
    ensures |FlipText(text)| == |text| + CountIn(CaseFold(text), ClusterLetters)
  {
    var folded := CaseFold(text);
    var mapped := Translate(Up + Down, Down + Up, folded);
    forall i | 0 <= i < |folded| ensures folded[i] in ClusterLetters <==> mapped[i] in ClusterLetters {
      FlipCharClusters(folded[i]);
    }
    CountInPreserved(folded, mapped, ClusterLetters);
    CountInReverse(mapped, ClusterLetters);
    assert Clusters.Keys == ClusterLetters;
    SubstituteLength(Clusters, Flipped(text), 2);
  }
}
