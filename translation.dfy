/** The decision logic of the `translate` command (translators/translators.py, lines
    34-83): the text is stripped of backticks, the translation provider is called,
    its errors are sorted into messages, the language argument is split by its
    length, and detection is asked for when only a target language was given.
    The provider's answers are parameters: this module does no I/O. */
module Translation {
  import opened Text

  // ---------------------------------------------------------------- backticks

  function StripLeading(s: string, c: char): string
    decreases |s|
  {
    if s != [] && s[0] == c then StripLeading(s[1..], c) else s
  }

  function StripTrailing(s: string, c: char): string
    decreases |s|
  {
    if s != [] && s[|s| - 1] == c then StripTrailing(s[..|s| - 1], c) else s
  }

  /** `s.strip(c)`: every leading and every trailing `c` removed. */
  function Strip(s: string, c: char): string
  {
    StripTrailing(StripLeading(s, c), c)
  }

  /** `r` is `s` without a run of `c` at each end, and starts and ends with
      something else (or is empty). */
  predicate Trimmed(s: string, c: char, r: string)
  {
    exists i, j :: 0 <= i <= j <= |s| && r == s[i..j]
      && (forall k :: 0 <= k < i ==> s[k] == c)
      && (forall k :: j <= k < |s| ==> s[k] == c)
      && (r != [] ==> r[0] != c && r[|r| - 1] != c)
  }

  /** `StripLeading` drops the leading run of `c`, which ends at `i`. */
  lemma {:induction false} StripLeadingShape(s: string, c: char) returns (i: nat)
    ensures i <= |s| && StripLeading(s, c) == s[i..]
    ensures forall k :: 0 <= k < i ==> s[k] == c
    ensures i < |s| ==> s[i] != c
    decreases |s|
  {
    if s != [] && s[0] == c {
      var i' := StripLeadingShape(s[1..], c);
      i := i' + 1;
      assert s[1..][i'..] == s[i..];
      forall k | 0 <= k < i ensures s[k] == c {
        if k > 0 {
          assert s[k] == s[1..][k - 1];
        }
      }
    } else {
      i := 0;
      assert StripLeading(s, c) == s[0..];
    }
  }

  /** `StripTrailing` drops the trailing run of `c`, which starts at `j`. */
  lemma {:induction false} StripTrailingShape(s: string, c: char) returns (j: nat)
    ensures j <= |s| && StripTrailing(s, c) == s[..j]
    ensures forall k :: j <= k < |s| ==> s[k] == c
    ensures j > 0 ==> s[j - 1] != c
    decreases |s|
  {
    if s != [] && s[|s| - 1] == c {
      var n := |s| - 1;
      j := StripTrailingShape(s[..n], c);
      assert s[..n][..j] == s[..j];
      forall k | j <= k < |s| ensures s[k] == c {
        if k < n {
          assert s[k] == s[..n][k];
        }
      }
      if j > 0 {
        assert s[j - 1] == s[..n][j - 1];
      }
    } else {
      j := |s|;
      assert StripTrailing(s, c) == s[..|s|];
    }
  }

  /** The stripped text is the input's interior: only `c` was removed, and only at
      the ends, and it neither starts nor ends with `c`. */
  lemma StripTrims(s: string, c: char)
    ensures Trimmed(s, c, Strip(s, c))
  {
    var i := StripLeadingShape(s, c);
    var t := s[i..];
    var j := StripTrailingShape(t, c);
    var r := s[i..i + j];
    assert Strip(s, c) == r by {
      assert t[..j] == r;
    }
    forall k | i + j <= k < |s| ensures s[k] == c {
      assert s[k] == t[k - i];
    }
    if r != [] {
      assert r[0] == s[i] && r[|r| - 1] == t[j - 1];
    }
    TrimmedBy(s, c, i, i + j);
  }

  /** The bounds `i` and `j` witness that `s[i..j]` is trimmed. */
  lemma TrimmedBy(s: string, c: char, i: nat, j: nat)
    requires i <= j <= |s|
    requires forall k :: 0 <= k < i ==> s[k] == c
    requires forall k :: j <= k < |s| ==> s[k] == c
    requires i < j ==> s[i] != c && s[j - 1] != c
    ensures Trimmed(s, c, s[i..j])
  {
  }

  /** Stripping a prefix of `c` that ends before a different character. */
  lemma {:induction false} StripLeadingAt(s: string, c: char, i: nat)
    requires i <= |s|
    requires forall k :: 0 <= k < i ==> s[k] == c
    requires i < |s| ==> s[i] != c
    ensures StripLeading(s, c) == s[i..]
    decreases i
  {
    if i > 0 {
      assert s[0] == c;
      StripLeadingAt(s[1..], c, i - 1);
      assert s[1..][i - 1..] == s[i..];
    }
  }

  /** Stripping a suffix of `c` that starts after a different character. */
  lemma {:induction false} StripTrailingAt(s: string, c: char, j: nat)
    requires j <= |s|
    requires forall k :: j <= k < |s| ==> s[k] == c
    requires j > 0 ==> s[j - 1] != c
    ensures StripTrailing(s, c) == s[..j]
    decreases |s| - j
  {
    if j < |s| {
      var n := |s| - 1;
      assert s[n] == c;
      StripTrailingAt(s[..n], c, j);
      assert s[..n][..j] == s[..j];
    } else {
      assert s[..j] == s;
    }
  }

  /** Only one text is trimmed that way: `Strip` is the sole answer. */
  lemma TrimmedUnique(s: string, c: char, r: string)
    requires Trimmed(s, c, r)
    ensures r == Strip(s, c)
  {
    var i, j :| 0 <= i <= j <= |s| && r == s[i..j]
      && (forall k :: 0 <= k < i ==> s[k] == c) && (forall k :: j <= k < |s| ==> s[k] == c)
      && (r != [] ==> r[0] != c && r[|r| - 1] != c);
    if r == [] {
      assert i == j;
      StripLeadingAt(s, c, |s|);
      assert StripLeading(s, c) == [];
    } else {
      assert r[0] == s[i];
      StripLeadingAt(s, c, i);
      var t := s[i..];
      assert r == t[..j - i];
      assert r[|r| - 1] == t[j - i - 1];
      forall k | j - i <= k < |t| ensures t[k] == c {
        assert t[k] == s[k + i];
      }
      StripTrailingAt(t, c, j - i);
    }
  }

  /** Stripping twice is stripping once. */
  lemma StripIdempotent(s: string, c: char)
    ensures Strip(Strip(s, c), c) == Strip(s, c)
  {
    var r := Strip(s, c);
    StripTrims(s, c);
    assert r == r[0..|r|];
    assert Trimmed(r, c, r);
    TrimmedUnique(r, c, r);
  }

  // ---------------------------------------------------------------- errors

  /** How the provider's translation error is reported (lines 44-60). */
  datatype TranslateError =
    | LanguageNotSupported
    | TextTooLong
    | KeyInvalid
    | UnprocessableText
    | ServiceUnavailable
    | OtherTranslateError(message: string)

  /** How the provider's detection error is reported (lines 68-71). */
  datatype DetectError = DetectNotSupported | DetectFailed(message: string)

  function ClassifyTranslateError(e: string): TranslateError
  {
    if e == "ERR_LANG_NOT_SUPPORTED" then LanguageNotSupported
    else if e == "ERR_TEXT_TOO_LONG" then TextTooLong
    else if e == "ERR_KEY_INVALID" then KeyInvalid
    else if e == "ERR_UNPROCESSABLE_TEXT" then UnprocessableText
    else if e == "ERR_SERVICE_NOT_AVAIBLE" then ServiceUnavailable
    else OtherTranslateError(e)
  }

  function ClassifyDetectError(e: string): DetectError
  {
    if e == "ERR_LANG_NOT_SUPPORTED" then DetectNotSupported else DetectFailed(e)
  }

  /** The provider code each dedicated message answers; the generic message carries
      the provider's own text. */
  function ErrorCode(k: TranslateError): string
  {
    match k
    case LanguageNotSupported => "ERR_LANG_NOT_SUPPORTED"
    case TextTooLong => "ERR_TEXT_TOO_LONG"
    case KeyInvalid => "ERR_KEY_INVALID"
    case UnprocessableText => "ERR_UNPROCESSABLE_TEXT"
    case ServiceUnavailable => "ERR_SERVICE_NOT_AVAIBLE"
    case OtherTranslateError(m) => m
  }

  predicate Dedicated(k: TranslateError)
  {
    !k.OtherTranslateError?
  }

  /** Classification and `ErrorCode` are inverse: every error string comes back from
      its class, and the five dedicated codes select five different classes. */
  lemma ClassifyRoundTrip(e: string, k: TranslateError)
    ensures ErrorCode(ClassifyTranslateError(e)) == e
    ensures Dedicated(k) ==> ClassifyTranslateError(ErrorCode(k)) == k
  {
  }

  /** A string outside the five codes gets the generic message with its own text. */
  lemma ClassifyOther(e: string)
    requires e != "ERR_LANG_NOT_SUPPORTED" && e != "ERR_TEXT_TOO_LONG" && e != "ERR_KEY_INVALID"
    requires e != "ERR_UNPROCESSABLE_TEXT" && e != "ERR_SERVICE_NOT_AVAIBLE"
    ensures ClassifyTranslateError(e) == OtherTranslateError(e)
  {
  }

  /** The code is matched as spelled in the handler, so the correctly spelled
      `ERR_SERVICE_NOT_AVAILABLE` gets the generic message. */
  lemma ServiceUnavailableSpelling()
    ensures ClassifyTranslateError("ERR_SERVICE_NOT_AVAILABLE") == OtherTranslateError("ERR_SERVICE_NOT_AVAILABLE")
    ensures ClassifyTranslateError("ERR_SERVICE_NOT_AVAIBLE") == ServiceUnavailable
  {
    ClassifyOther("ERR_SERVICE_NOT_AVAILABLE");
  }

  /** Detection errors split only on `ERR_LANG_NOT_SUPPORTED`. */
  lemma ClassifyDetectSplit(e: string)
    ensures ClassifyDetectError(e) == DetectNotSupported <==> e == "ERR_LANG_NOT_SUPPORTED"
    ensures ClassifyDetectError(e) != DetectNotSupported ==> ClassifyDetectError(e) == DetectFailed(e)
  {
  }

  // ---------------------------------------------------------------- language spec

  /** What the `language` argument asks for (lines 62-76): a target only, to be
      completed by detection; a source and a target; or neither. */
  datatype LanguageSpec =
    | DetectSource(target: string)
    | SourceTarget(source: string, target: string)
    | Unset

  function ParseLanguage(language: string): LanguageSpec
  {
    if |language| == 2 then DetectSource(language)
    else if |language| == 5 then SourceTarget(language[..2], language[3..])
    else Unset
  }

  /** Splitting undoes joining two two-letter codes with any separator: the middle
      character is never checked to be `-`. */
  lemma ParseJoined(source: string, sep: char, target: string)
    requires |source| == 2 && |target| == 2
    ensures ParseLanguage(source + [sep] + target) == SourceTarget(source, target)
  {
    var s := source + [sep] + target;
    assert s[..2] == source && s[3..] == target;
  }

  /** Every split comes from such a join, and only lengths 2 and 5 set anything. */
  lemma ParseCases(language: string)
    ensures ParseLanguage(language).SourceTarget? ==>
      |ParseLanguage(language).source| == 2 && |ParseLanguage(language).target| == 2
      && language == ParseLanguage(language).source + [language[2]] + ParseLanguage(language).target
    ensures ParseLanguage(language).DetectSource? <==> |language| == 2
    ensures ParseLanguage(language).Unset? <==> |language| != 2 && |language| != 5
  {
    if |language| == 5 {
      assert language == language[..2] + [language[2]] + language[3..];
    }
  }

  // ---------------------------------------------------------------- reply

  /** An answer from the provider: a value; a `YandexTranslateException`, the one
      exception the handler catches, with its text; or any other exception (a
      missing API key in the configuration, a network or decoding failure), which
      escapes the handler. */
  datatype Outcome<T> = Ok(value: T) | Raised(error: string) | Escaped

  /** The provider's translation response: its `code` and its `text` list. */
  datatype Response = Response(code: int, texts: seq<string>)

  /** What the command replies. `Crashed` is an exception the handler does not catch
      before it has said anything: an `Escaped` provider exception, or `None.upper()`
      when the language is neither 2 nor 5 long on a response with code 200.
      `CrashedAfterInput` is the `Input` message, already sent, followed by the
      `IndexError` of an empty `text` list. */
  datatype Reply =
    | TranslateFailed(translateError: TranslateError)
    | DetectionFailed(detectError: DetectError)
    | Translated(inputLanguage: string, input: string, outputLanguage: string, translation: string)
    | CrashedAfterInput(sentLanguage: string, sentInput: string)
    | ServerCode(code: int)
    | Crashed

  /** The `translate` command: `translated` is the provider's answer to the stripped
      text, `detected` its answer to a detection request, which the handler only
      reads when the language argument is 2 characters long. */
  function TranslateReply(language: string, text: string, translated: Outcome<Response>, detected: Outcome<string>): Reply
  {
    var input := Strip(text, '`');
    match translated
    case Escaped => Crashed
    case Raised(e) => TranslateFailed(ClassifyTranslateError(e))
    case Ok(response) =>
      var spec := ParseLanguage(language);
      if spec.DetectSource? && detected.Escaped? then Crashed
      else if spec.DetectSource? && detected.Raised? then DetectionFailed(ClassifyDetectError(detected.error))
      else if response.code != 200 then ServerCode(response.code)
      else if spec.Unset? then Crashed
      else
        var source := if spec.DetectSource? then detected.value else spec.source;
        if response.texts == [] then CrashedAfterInput(UpperText(source), input)
        else Translated(UpperText(source), input, UpperText(spec.target), response.texts[0])
  }

  /** The translation request comes first: when it fails, detection plays no part. */
  lemma TranslateFailureFirst(language: string, text: string, e: string, d1: Outcome<string>, d2: Outcome<string>)
    ensures TranslateReply(language, text, Raised(e), d1) == TranslateReply(language, text, Raised(e), d2)
    ensures TranslateReply(language, text, Raised(e), d1).TranslateFailed?
  {
  }

  /** Detection is consulted only for a 2-character language argument. */
  lemma DetectionOnlyForTarget(language: string, text: string, t: Outcome<Response>, d1: Outcome<string>, d2: Outcome<string>)
    requires |language| != 2
    ensures TranslateReply(language, text, t, d1) == TranslateReply(language, text, t, d2)
  {
  }

  /** With a 2-character argument and a successful translation, a failed detection
      always ends the command, whatever the response code. */
  lemma DetectionFailureEnds(language: string, text: string, r: Response, e: string)
    requires |language| == 2
    ensures TranslateReply(language, text, Ok(r), Raised(e)) == DetectionFailed(ClassifyDetectError(e))
  {
  }

  /** A `source-target` argument with a code-200 response reports both halves in
      upper case, the backtick-free input and the first translation. */
  lemma TranslatedPair(source: string, sep: char, target: string, text: string, r: Response, d: Outcome<string>)
    requires |source| == 2 && |target| == 2
    requires r.code == 200 && r.texts != []
    ensures TranslateReply(source + [sep] + target, text, Ok(r), d)
      == Translated(UpperText(source), Strip(text, '`'), UpperText(target), r.texts[0])
  {
    ParseJoined(source, sep, target);
  }

  /** With a target only, the detected language is reported as the input's. */
  lemma TranslatedDetected(target: string, text: string, r: Response, detected: string)
    requires |target| == 2
    requires r.code == 200 && r.texts != []
    ensures TranslateReply(target, text, Ok(r), Ok(detected))
      == Translated(UpperText(detected), Strip(text, '`'), UpperText(target), r.texts[0])
  {
  }

  /** Once detection, if asked for, succeeded, a code-200 response crashes the
      handler before any message exactly when no language pair can be formed, and
      after the `Input` message exactly when a pair is formed but the response has
      no text. */
  lemma CrashCases(language: string, text: string, r: Response, d: Outcome<string>)
    requires r.code == 200
    requires |language| == 2 ==> d.Ok?
    ensures TranslateReply(language, text, Ok(r), d) == Crashed <==>
      |language| != 2 && |language| != 5
    ensures TranslateReply(language, text, Ok(r), d).CrashedAfterInput? <==>
      (|language| == 2 || |language| == 5) && r.texts == []
    ensures TranslateReply(language, text, Ok(r), d).CrashedAfterInput? ==>
      TranslateReply(language, text, Ok(r), d) ==
        CrashedAfterInput(UpperText(if |language| == 2 then d.value else language[..2]), Strip(text, '`'))
  {
  }

  /** An exception other than `YandexTranslateException` escapes the handler: always
      from the translation request, and from detection only when it is made. */
  lemma EscapedCrashes(language: string, text: string, r: Response, d: Outcome<string>)
    ensures TranslateReply(language, text, Escaped, d) == Crashed
    ensures TranslateReply(language, text, Ok(r), Escaped) == Crashed <==>
      |language| == 2 || (r.code == 200 && |language| != 5)
  {
  }
}
