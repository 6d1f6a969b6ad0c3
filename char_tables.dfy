/** `str.maketrans(from, to)` and `str.translate`: the character tables behind
    eciho, fliptext, fullwidth and emojify. */
module CharTables {

  datatype Option<T> = None | Some(value: T)

  /** The entry `str.maketrans(from, to)` holds for `c`. The dictionary is filled
      pair by pair from left to right, so when a key occurs twice its last pair
      wins. Python rejects strings of different lengths, hence the precondition. */
  function Lookup(from: string, to: string, c: char): Option<char>
    requires |from| == |to|
    decreases |from|
  {
    if |from| == 0 then None
    else if from[|from| - 1] == c then Some(to[|to| - 1])
    else Lookup(from[..|from| - 1], to[..|to| - 1], c)
  }

  /** What `translate` writes for `c`: its table entry, or `c` itself. */
  function MapChar(from: string, to: string, c: char): char
    requires |from| == |to|
  {
    match Lookup(from, to, c)
    case Some(d) => d
    case None => c
  }

  /** `s.translate(str.maketrans(from, to))`: every character is looked up once, on
      its own, and the output is never read again. */
  function Translate(from: string, to: string, s: string): string
    requires |from| == |to|
  {
    seq(|s|, i requires 0 <= i < |s| => MapChar(from, to, s[i]))
  }

  /** A character that is not a key has no entry. */
  lemma {:induction false} LookupAbsent(from: string, to: string, c: char)
    requires |from| == |to|
    ensures Lookup(from, to, c) == None <==> c !in from
    decreases |from|
  {
    if |from| > 0 {
      var n := |from| - 1;
      assert from == from[..n] + [from[n]];
      LookupAbsent(from[..n], to[..n], c);
    }
  }

  /** The pair at index `i` is the entry for `from[i]` when no later pair has the
      same key: later pairs override earlier ones. */
  lemma {:induction false} LookupAt(from: string, to: string, i: nat)
    requires |from| == |to| && i < |from|
    requires forall j :: i < j < |from| ==> from[j] != from[i]
    ensures Lookup(from, to, from[i]) == Some(to[i])
    decreases |from|
  {
    var n := |from| - 1;
    if i < n {
      LookupAt(from[..n], to[..n], i);
    }
  }

  /** Every entry is the value of the last pair whose key is `c`. */
  lemma {:induction false} LookupLastWins(from: string, to: string, c: char)
    requires |from| == |to|
    ensures Lookup(from, to, c).Some? ==>
      exists i :: 0 <= i < |from| && from[i] == c && Lookup(from, to, c).value == to[i]
        && forall j :: i < j < |from| ==> from[j] != c
    decreases |from|
  {
    if |from| > 0 {
      var n := |from| - 1;
      if from[n] != c {
        var r := Lookup(from[..n], to[..n], c);
        assert Lookup(from, to, c) == r;
        LookupLastWins(from[..n], to[..n], c);
        if r.Some? {
          var i :| 0 <= i < n && from[..n][i] == c && r.value == to[..n][i]
            && forall j :: i < j < n ==> from[..n][j] != c;
          forall j | i < j < |from|
            ensures from[j] != c
          {
            if j < n {
              assert from[..n][j] == from[j];
            }
          }
          assert from[i] == c && to[i] == r.value;
        }
      }
    }
  }

  /** An entry is always one of the characters of `to`. */
  lemma LookupImage(from: string, to: string, c: char)
    requires |from| == |to|
    ensures Lookup(from, to, c).Some? ==> Lookup(from, to, c).value in to
  {
    LookupLastWins(from, to, c);
  }

  /** When every pair maps its key by one function `f`, the table is `f` on its keys
      (duplicates agree, so which pair wins does not matter). */
  lemma {:induction false} LookupGraph(from: string, to: string, f: char -> char, c: char)
    requires |from| == |to|
    requires forall i :: 0 <= i < |from| ==> to[i] == f(from[i])
    ensures Lookup(from, to, c) == if c in from then Some(f(c)) else None
    decreases |from|
  {
    if |from| > 0 {
      var n := |from| - 1;
      assert from == from[..n] + [from[n]];
      LookupGraph(from[..n], to[..n], f, c);
    }
  }

  /** A table built from `f1 + f2` and `t1 + t2` answers from the second half for
      the keys it has, and from the first half otherwise. */
  lemma {:induction false} LookupAppend(f1: string, t1: string, f2: string, t2: string, c: char)
    requires |f1| == |t1| && |f2| == |t2|
    ensures Lookup(f1 + f2, t1 + t2, c) == if c in f2 then Lookup(f2, t2, c) else Lookup(f1, t1, c)
    decreases |f2|
  {
    if |f2| == 0 {
      assert f1 + f2 == f1 && t1 + t2 == t1;
    } else {
      var n := |f2| - 1;
      assert (f1 + f2)[..|f1| + n] == f1 + f2[..n];
      assert (t1 + t2)[..|t1| + n] == t1 + t2[..n];
      assert f2 == f2[..n] + [f2[n]];
      LookupAppend(f1, t1, f2[..n], t2[..n], c);
    }
  }

  /** A character of the translated text is a character of `to`, or a character of
      `s` that is not a key. */
  lemma TranslateChars(from: string, to: string, s: string)
    requires |from| == |to|
    ensures forall x :: x in Translate(from, to, s) ==> x in to || (x in s && x !in from)
  {
    forall x | x in Translate(from, to, s) ensures x in to || (x in s && x !in from) {
      var i :| 0 <= i < |s| && Translate(from, to, s)[i] == x;
      LookupImage(from, to, s[i]);
      LookupAbsent(from, to, s[i]);
    }
  }
}
