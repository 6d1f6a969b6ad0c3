/** Python text as this model sees it.

    A Python `str` is a sequence of Unicode code points. In Dafny 4 a `char` is a
    Unicode scalar value, so a Dafny `string` holds exactly one code point per
    element, including the regional indicators outside the Basic Multilingual Plane.
    This module holds the string operations the transforms share: case mapping,
    slicing-based reversal, `itertools.groupby` collapse, and single-character
    substitution (`re.sub` over an alternation of one-character keys, or
    `str.replace` of one character). */
module Text {

  /** `str.upper()` for the letters the cog's tables and commands use: Basic Latin,
      the Cyrillic block U+0400..U+045F, the pair Һ/һ (U+04BA/U+04BB, a character
      of the `fliptext` table) and the full-width Latin letters. Every other
      character is left as it is. */
  function Upper(c: char): char
  {
    if 'a' <= c <= 'z' || 'а' <= c <= 'я' || 'ａ' <= c <= 'ｚ' then (c as int - 32) as char
    else if 'ѐ' <= c <= 'џ' then (c as int - 80) as char
    else if c == 'һ' then 'Һ'
    else c
  }

  /** `str.casefold()` (equal to `str.lower()`) on the same letters as `Upper`. */
  function Lower(c: char): char
  {
    if 'A' <= c <= 'Z' || 'А' <= c <= 'Я' || 'Ａ' <= c <= 'Ｚ' then (c as int + 32) as char
    else if 'Ѐ' <= c <= 'Џ' then (c as int + 80) as char
    else if c == 'Һ' then 'һ'
    else c
  }

  predicate IsLowerLetter(c: char)
  {
    'a' <= c <= 'z' || 'а' <= c <= 'я' || 'ａ' <= c <= 'ｚ' || 'ѐ' <= c <= 'џ' || c == 'һ'
  }

  predicate IsUpperLetter(c: char)
  {
    'A' <= c <= 'Z' || 'А' <= c <= 'Я' || 'Ａ' <= c <= 'Ｚ' || 'Ѐ' <= c <= 'Џ' || c == 'Һ'
  }

  /** Upper and lower case are mutually inverse on the modelled letters, and fixed
      elsewhere. */
  lemma CaseRoundTrip(c: char)
    ensures IsLowerLetter(c) ==> IsUpperLetter(Upper(c)) && Lower(Upper(c)) == c
    ensures IsUpperLetter(c) ==> IsLowerLetter(Lower(c)) && Upper(Lower(c)) == c
    ensures !IsLowerLetter(c) ==> Upper(c) == c
    ensures !IsUpperLetter(c) ==> Lower(c) == c
  {
  }

  /** `s.upper()`: one code point in, one out, on the modelled letters. */
  function UpperText(s: string): string
  {
    seq(|s|, i requires 0 <= i < |s| => Upper(s[i]))
  }

  /** Upper-casing keeps membership: the image of a character of `s` is in the
      image of `s`. */
  lemma UpperTextHas(s: string, h: char)
    requires h in s
    ensures Upper(h) in UpperText(s)
  {
    var i :| 0 <= i < |s| && s[i] == h;
    assert UpperText(s)[i] == Upper(h);
  }

  /** `s.casefold()`, likewise. */
  function CaseFold(s: string): string
  {
    seq(|s|, i requires 0 <= i < |s| => Lower(s[i]))
  }

  /** `s[::-1]`. */
  function Reverse(s: string): string
  {
    seq(|s|, i requires 0 <= i < |s| => s[|s| - 1 - i])
  }

  /** No two neighbouring characters are equal. */
  predicate RunFree(s: string)
  {
    forall i :: 0 < i < |s| ==> s[i - 1] != s[i]
  }

  /** `''.join(c for c, _ in itertools.groupby(s))`: every run of equal neighbouring
      characters is replaced by one copy of that character. */
  function Collapse(s: string): (r: string)
    ensures |r| <= |s|
    ensures s != [] ==> r != [] && r[0] == s[0]
    ensures RunFree(r)
    ensures forall x :: x in r <==> x in s
  {
    if |s| <= 1 then s
    else if s[0] == s[1] then Collapse(s[1..])
    else [s[0]] + Collapse(s[1..])
  }

  /** `s` is `r` with each of its characters repeated, in place, one or more times. */
  predicate Stutters(r: string, s: string)
    decreases |s|
  {
    if s == [] then r == []
    else r != [] && s[0] == r[0] && (Stutters(r[1..], s[1..]) || Stutters(r, s[1..]))
  }

  /** Expanding the collapse back, run by run, gives the input again. */
  lemma {:induction false} CollapseStutters(s: string)
    ensures Stutters(Collapse(s), s)
    decreases |s|
  {
    if |s| == 1 {
      assert Collapse(s)[1..] == [];
    } else if |s| > 1 {
      CollapseStutters(s[1..]);
      if s[0] != s[1] {
        assert Collapse(s)[1..] == Collapse(s[1..]);
      }
    }
  }

  /** The collapse is the only run-free text that expands to `s`: together with
      `CollapseStutters` this pins `Collapse` down as `groupby`'s run keys. */
  lemma {:induction false} CollapseUnique(r: string, s: string)
    requires RunFree(r) && Stutters(r, s)
    ensures r == Collapse(s)
    decreases |s|
  {
    if |s| == 1 {
      assert !Stutters(r, s[1..]);
      assert r[1..] == [];
      assert r == [r[0]] + r[1..];
    } else if |s| > 1 {
      if s[0] == s[1] {
        assert !Stutters(r[1..], s[1..]) by {
          assert |r| > 1 ==> r[0] != r[1];
        }
        CollapseUnique(r, s[1..]);
      } else {
        assert !Stutters(r, s[1..]);
        assert RunFree(r[1..]) by {
          forall i | 0 < i < |r[1..]| ensures r[1..][i - 1] != r[1..][i] {
            assert r[i] != r[i + 1];
          }
        }
        CollapseUnique(r[1..], s[1..]);
        assert r == [r[0]] + r[1..];
      }
    }
  }

  /** A run-free text is its own collapse. */
  lemma CollapseRunFree(s: string)
    requires RunFree(s)
    ensures Collapse(s) == s
  {
    StuttersSelf(s);
    CollapseUnique(s, s);
  }

  lemma {:induction false} StuttersSelf(s: string)
    ensures Stutters(s, s)
    decreases |s|
  {
    if s != [] {
      StuttersSelf(s[1..]);
    }
  }

  /** What one character becomes under dictionary `d`: its value, or itself when it
      is not a key. */
  function Piece(d: map<char, string>, c: char): string
  {
    if c in d then d[c] else [c]
  }

  /** `re.sub('|'.join(d.keys()), lambda m: d[m.group()], s)` for keys that are
      single characters and not regular-expression metacharacters, and `str.replace`
      of one character: the text is read left to right, each key character is
      replaced by its value, and what was written is never read again. */
  function Substitute(d: map<char, string>, s: string): string
  {
    if s == [] then [] else Piece(d, s[0]) + Substitute(d, s[1..])
  }

  /** `s.replace(key, value)` for a one-character `key`. */
  function Replace(s: string, key: char, value: string): string
  {
    Substitute(map[key := value], s)
  }

  /** Substitution works piece by piece: the output for `a + b` is the output for `a`
      followed by the output for `b`. */
  lemma {:induction false} SubstituteAppend(d: map<char, string>, a: string, b: string)
    ensures Substitute(d, a + b) == Substitute(d, a) + Substitute(d, b)
    decreases |a|
  {
    if a != [] {
      var ab := a + b;
      assert ab[0] == a[0] && ab[1..] == a[1..] + b;
      SubstituteAppend(d, a[1..], b);
      var p, x, y := Piece(d, a[0]), Substitute(d, a[1..]), Substitute(d, b);
      assert Substitute(d, ab) == p + (x + y);
      assert p + (x + y) == (p + x) + y;
    } else {
      assert a + b == b;
    }
  }

  /** Every occurrence of a character contributes the same string, whatever
      surrounds it. */
  lemma SubstituteAt(d: map<char, string>, s: string, i: nat)
    requires i < |s|
    ensures Substitute(d, s) == Substitute(d, s[..i]) + Piece(d, s[i]) + Substitute(d, s[i + 1..])
  {
    assert s == s[..i] + ([s[i]] + s[i + 1..]);
    SubstituteAppend(d, s[..i], [s[i]] + s[i + 1..]);
    assert ([s[i]] + s[i + 1..])[1..] == s[i + 1..];
  }

  /** A character is in the output exactly when it is in the piece of some input
      character. */
  lemma {:induction false} SubstituteChars(d: map<char, string>, s: string, x: char)
    ensures x in Substitute(d, s) <==> exists i :: 0 <= i < |s| && x in Piece(d, s[i])
    decreases |s|
  {
    if s != [] {
      SubstituteChars(d, s[1..], x);
      if x in Substitute(d, s[1..]) {
        var i :| 0 <= i < |s[1..]| && x in Piece(d, s[1..][i]);
        assert x in Piece(d, s[i + 1]);
      }
      if exists i :: 0 <= i < |s| && x in Piece(d, s[i]) {
        var i :| 0 <= i < |s| && x in Piece(d, s[i]);
        if i > 0 {
          assert x in Piece(d, s[1..][i - 1]);
        }
      }
    }
  }

  /** Number of characters of `s` that belong to `keys`. */
  function CountIn(s: string, keys: set<char>): nat
  {
    if s == [] then 0 else (if s[0] in keys then 1 else 0) + CountIn(s[1..], keys)
  }

  lemma {:induction false} CountInAppend(a: string, b: string, keys: set<char>)
    ensures CountIn(a + b, keys) == CountIn(a, keys) + CountIn(b, keys)
    decreases |a|
  {
    if a == [] {
      assert a + b == b;
    } else {
      assert (a + b)[1..] == a[1..] + b;
      CountInAppend(a[1..], b, keys);
    }
  }

  /** Two texts that agree, position by position, on membership in `keys` have the
      same count. */
  lemma {:induction false} CountInPreserved(s: string, t: string, keys: set<char>)
    requires |s| == |t|
    requires forall i :: 0 <= i < |s| ==> (s[i] in keys <==> t[i] in keys)
    ensures CountIn(s, keys) == CountIn(t, keys)
    decreases |s|
  {
    if s != [] {
      CountInPreserved(s[1..], t[1..], keys);
    }
  }

  /** Reversal keeps the count. */
  lemma {:induction false} CountInReverse(s: string, keys: set<char>)
    ensures CountIn(Reverse(s), keys) == CountIn(s, keys)
    decreases |s|
  {
    if s != [] {
      assert Reverse(s) == Reverse(s[1..]) + [s[0]];
      CountInAppend(Reverse(s[1..]), [s[0]], keys);
      CountInReverse(s[1..], keys);
    }
  }

  /** When every value has length `n`, each key occurrence adds `n - 1` characters. */
  lemma {:induction false} SubstituteLength(d: map<char, string>, s: string, n: nat)
    requires forall k :: k in d ==> |d[k]| == n
    ensures |Substitute(d, s)| + CountIn(s, d.Keys) == |s| + n * CountIn(s, d.Keys)
    decreases |s|
  {
    if s != [] {
      SubstituteLength(d, s[1..], n);
    }
  }

  /** `s.replace("", z)`: `z` before the first character, between every two and after
      the last. */
  function Interleave(s: string, z: char): (r: string)
    ensures |r| == 2 * |s| + 1
  {
    if s == [] then [z] else [z, s[0]] + Interleave(s[1..], z)
  }

  /** The interleaved text starts and ends with `z` and alternates `z` with the
      characters of `s`. */
  lemma {:induction false} InterleaveShape(s: string, z: char)
    ensures |Interleave(s, z)| == 2 * |s| + 1
    ensures forall k :: 0 <= k <= |s| ==> Interleave(s, z)[2 * k] == z
    ensures forall k :: 0 <= k < |s| ==> Interleave(s, z)[2 * k + 1] == s[k]
    decreases |s|
  {
    if s != [] {
      InterleaveShape(s[1..], z);
      var r := Interleave(s, z);
      var t := Interleave(s[1..], z);
      assert r == [z, s[0]] + t;
      forall k | 1 <= k <= |s| ensures r[2 * k] == z {
        assert r[2 * k] == t[2 * (k - 1)];
      }
      forall k | 1 <= k < |s| ensures r[2 * k + 1] == s[k] {
        assert r[2 * k + 1] == t[2 * (k - 1) + 1];
      }
    }
  }

  /** When no value is empty, substitution never shortens the text. */
  lemma {:induction false} SubstituteNotShorter(d: map<char, string>, s: string)
    requires forall k :: k in d ==> d[k] != []
    ensures |Substitute(d, s)| >= |s|
    decreases |s|
  {
    if s != [] {
      SubstituteNotShorter(d, s[1..]);
    }
  }

  /** A text holding no key comes out unchanged. */
  lemma {:induction false} SubstituteNoKeys(d: map<char, string>, s: string)
    requires forall x :: x in s ==> x !in d
    ensures Substitute(d, s) == s
    decreases |s|
  {
    if s != [] {
      assert s[0] in s;
      assert forall x :: x in s[1..] ==> x in s;
      SubstituteNoKeys(d, s[1..]);
    }
  }

  /** Replacing one more character after a substitution is a single substitution
      with that key added, when it was not a key before and no earlier value holds
      it. */
  lemma {:induction false} ReplaceAfterSubstitute(d: map<char, string>, s: string, key: char, value: string)
    requires key !in d
    requires forall k :: k in d ==> key !in d[k]
    ensures Replace(Substitute(d, s), key, value) == Substitute(d[key := value], s)
    decreases |s|
  {
    if s != [] {
      var single := map[key := value];
      SubstituteAppend(single, Piece(d, s[0]), Substitute(d, s[1..]));
      ReplaceAfterSubstitute(d, s[1..], key, value);
      if s[0] in d {
        SubstituteNoKeys(single, d[s[0]]);
      } else {
        assert Piece(d, s[0]) == [s[0]];
        assert Substitute(single, [s[0]]) == Piece(single, s[0]) + Substitute(single, []);
      }
    }
  }

  /** `s.replace(k1, v1).replace(k2, v2)...` for one-character keys, in that order. */
  function ReplaceAll(s: string, rules: seq<(char, string)>): string
    decreases |rules|
  {
    if rules == [] then s
    else
      var n := |rules| - 1;
      Replace(ReplaceAll(s, rules[..n]), rules[n].0, rules[n].1)
  }

  /** The rules as one dictionary (a later rule for the same key wins). */
  function RulesMap(rules: seq<(char, string)>): map<char, string>
    decreases |rules|
  {
    if rules == [] then map[]
    else
      var n := |rules| - 1;
      RulesMap(rules[..n])[rules[n].0 := rules[n].1]
  }

  /** The dictionary of the first `k` rules extends that of the first `k - 1`. */
  lemma RulesMapStep(rules: seq<(char, string)>, k: nat)
    requires 0 < k <= |rules|
    ensures RulesMap(rules[..k]) == RulesMap(rules[..k - 1])[rules[k - 1].0 := rules[k - 1].1]
  {
    assert rules[..k][..k - 1] == rules[..k - 1];
  }

  /** No two rules share a key, and no rule's value holds the key of a later rule. */
  predicate Independent(rules: seq<(char, string)>)
  {
    forall i, j :: 0 <= i < j < |rules| ==> rules[i].0 != rules[j].0 && rules[j].0 !in rules[i].1
  }

  /** Every entry of the dictionary comes from some rule. */
  lemma {:induction false} RulesMapEntry(rules: seq<(char, string)>, k: char)
    ensures k in RulesMap(rules) ==>
      exists i :: 0 <= i < |rules| && rules[i].0 == k && RulesMap(rules)[k] == rules[i].1
    decreases |rules|
  {
    if rules != [] {
      var n := |rules| - 1;
      RulesMapEntry(rules[..n], k);
      if k in RulesMap(rules) && k != rules[n].0 {
        var i :| 0 <= i < n && rules[..n][i].0 == k && RulesMap(rules[..n])[k] == rules[..n][i].1;
        assert rules[i].0 == k;
      }
    }
  }

  /** A chain of independent one-character replacements is one substitution: no
      replacement's output is touched by a later one. */
  lemma {:induction false} ReplaceAllSubstitute(s: string, rules: seq<(char, string)>)
    requires Independent(rules)
    ensures ReplaceAll(s, rules) == Substitute(RulesMap(rules), s)
    decreases |rules|
  {
    if rules == [] {
      SubstituteNoKeys(map[], s);
    } else {
      var n := |rules| - 1;
      var (key, value) := rules[n];
      var d := RulesMap(rules[..n]);
      assert Independent(rules[..n]);
      ReplaceAllSubstitute(s, rules[..n]);
      forall k | k in d ensures k != key && key !in d[k] {
        RulesMapEntry(rules[..n], k);
      }
      ReplaceAfterSubstitute(d, s, key, value);
    }
  }
}
