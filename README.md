# Translators text transforms, modelled in Dafny

The `Translators` cog of the Fixator10 Red-bot cogs answers chat commands that
rewrite text: `eciho` (a joke "language" built from Cyrillic and Latin letter
tables and a collapse of repeated characters), `fliptext` (upside-down text),
`fullwidth` (full-width forms), `leet` and `cs` (1337 substitutions, Latin and
Cyrillic), `emojify` (regional-indicator letters, spelled-out digits, zero-width
spaces), and two commands that call outside services: `translate` (a translation
provider) and `googlesay` (a text-to-speech service).

This project models the text transforms inside those command handlers as pure
Dafny functions, and proves what they do:

- `Text` holds the string operations the handlers share. It models `str.upper`
  and `str.casefold` on the letters the tables use (ASCII, the Cyrillic block
  U+0400..U+045F, the pair Һ/һ and full-width Latin), the `itertools.groupby`
  collapse, and `re.sub` or `str.replace` of single characters. It also models
  `replace("", z)` and chains of `replace` calls.
- `CharTables` models `str.maketrans` and `str.translate`. When a key appears
  twice, its last pair wins.
- `Eciho`, `FlipText`, `FullWidth`, `Leet` (which holds both `leet` and `cs`) and
  `Emojify` model one command each.
- `Translation` models the decision logic of `translate`:
  - stripping backticks;
  - sorting provider errors into messages;
  - splitting the language argument;
  - when detection is consulted, and what the reply is.
- `Speech` models `googlesay`: cutting the text, naming the file, and the reply.

Text is a Dafny `string`. In Dafny 4 a `char` is a Unicode scalar value, so a
`string` holds one Python code point per element. That includes the regional
indicators U+1F1E6..U+1F1FF that `emojify` writes, which lie outside the Basic
Multilingual Plane.

Every call to a service is a parameter of the model. This covers the provider's
translation response or exception, its detection answer, and the speech
service's HTTP status and body. `random.choice` is a parameter too: one index per
dictionary entry, drawn once when the dictionary literal is built.

Five points of the code are easy to misread, and the model follows the code
in each:

- `translate` calls the provider's translation first (lines 41-42). Only after
  that succeeds does it call detection, and only for a 2-character language
  argument (lines 64-66). Detection is therefore never the first call.
- A language argument whose length is neither 2 nor 5 does not fall through to a
  normal reply. If the provider answers with code 200, `input_lang` is still
  `None`, and `input_lang.upper()` at line 78 raises an exception the handler
  does not catch. The model gives this reply as `Crashed`.
- A code-200 response with an empty `text` list is not reported as an error
  either. The `Input` message at line 78 is sent first, and then
  `response["text"][0]` at line 79 raises `IndexError`. The model gives this
  reply as `CrashedAfterInput`, carrying what was already sent.
- The handler catches only `YandexTranslateException` (lines 43 and 67). Any
  other exception, such as a missing API key in the configuration at line 41 or
  a network failure, escapes it. The provider's answer `Raised` stands for a
  `YandexTranslateException`, and `Escaped` for any other exception. An escaped
  exception gives the reply `Crashed`.
- `fullwidth` is idempotent. The model proves this (`FullWidthIdempotent`): full-width
  characters are not keys of either table.

## Model

| member | source | states |
|---|---|---|
| Text.Upper | translators/translators.py:126-127 | `str.upper` on one character: small ASCII, Cyrillic (U+0430..U+045F), һ and full-width letters become their capitals; the inverse of `Lower` on those letters (CaseRoundTrip) |
| Text.Lower | translators/translators.py:147 | `str.casefold` on one character, the inverse of `Upper` on the modelled letters (CaseRoundTrip) |
| Text.UpperText | translators/translators.py:186 | `str.upper` on a text, as in `leet` (line 186), `cs` (line 222), `eciho` (lines 126-127, 135-136) and `emojify` (line 294): `Upper` on each character, length kept; property in UpperTextHas and CaseRoundTrip |
| Text.UpperTextHas | translators/translators.py:126-127 | upper-casing keeps membership: the capital of a character of the text is in the upper-cased text |
| Text.CaseFold | translators/translators.py:147 | `str.casefold` on a text: `Lower` on each character, length kept (FlippedAt, CaseRoundTrip) |
| Text.Reverse | translators/translators.py:151 | `[::-1]`: the characters in the opposite order (used in FlippedAt) |
| Text.Piece | translators/translators.py:159 | what the `re.sub` callback `dic[x.group()]` writes for one character: its value for a key, the character itself otherwise (SubstituteAt) |
| Text.Substitute | translators/translators.py:158-159 | `pattern.sub` with one-character keys: each character is replaced by its dictionary value, left to right, or kept; properties in SubstituteAt, SubstituteChars and SubstituteLength |
| Text.Replace | translators/translators.py:298 | one `str.replace` of a one-character key, as at line 298 and in each step of lines 300-311 (SpacedNoSpace, ReplaceAfterSubstitute) |
| Text.ReplaceAll | translators/translators.py:300-311 | a chain of `str.replace` calls applied in order; equal to one Substitute for independent rules (ReplaceAllSubstitute) |
| Text.CaseRoundTrip | translators/translators.py:126-127 | upper and lower case undo each other on the modelled letters (ASCII, Cyrillic U+0400..U+045F, Һ/һ, full-width Latin) and fix every other character |
| Text.Collapse | translators/translators.py:130 | the groupby join is no longer than its input, starts with the same character, has no two equal neighbours, and holds exactly the characters of the input |
| Text.CollapseStutters | translators/translators.py:130 | repeating each character of the collapse in place, one or more times, gives back the input |
| Text.CollapseUnique | translators/translators.py:130 | the collapse is the only text without equal neighbours that expands to the input, so it is exactly the list of groupby keys |
| Text.CollapseRunFree | translators/translators.py:130 | a text without equal neighbours is its own collapse, so collapsing twice is collapsing once |
| Text.SubstituteAt | translators/translators.py:215-216 | a key contributes its dictionary value wherever it stands; what was written is never read again |
| Text.SubstituteChars | translators/translators.py:158-159 | a character is in the substituted text exactly when it is in the replacement of some input character |
| Text.SubstituteLength | translators/translators.py:158-159 | when every value has length n, each key occurrence adds n - 1 characters |
| Text.SubstituteNotShorter | translators/translators.py:215-216 | when no value is empty, substitution never shortens the text |
| Text.Interleave | translators/translators.py:299 | `replace("", z)` on n characters gives 2n + 1 characters |
| Text.InterleaveShape | translators/translators.py:299 | `replace("", z)` puts z first, last and between every two characters, and keeps the characters in order at the odd positions |
| Text.ReplaceAfterSubstitute | translators/translators.py:300-311 | one more `replace` after a substitution is a single substitution with that key added, when no earlier value holds the key |
| Text.ReplaceAllSubstitute | translators/translators.py:300-311 | a chain of one-character `replace` calls with distinct keys, where no value holds a later key, is one left-to-right substitution |
| CharTables.Lookup | translators/translators.py:124-125 | the entry of `str.maketrans(from, to)` for a character, read from the last pair with that key; properties in LookupLastWins and LookupAbsent |
| CharTables.MapChar | translators/translators.py:124-125 | what `str.translate` writes for one character: its entry in the `str.maketrans` table, or the character itself (LookupAbsent, LookupLastWins, TranslateChars) |
| CharTables.Translate | translators/translators.py:124-125 | `str.translate`: each character through the table, unmapped characters kept; property in TranslateChars |
| CharTables.LookupAbsent | translators/translators.py:124-125 | a character has a table entry exactly when it is a key |
| CharTables.LookupAt | translators/translators.py:148-150 | the pair at position i is the entry for its key when no later pair has the same key |
| CharTables.LookupLastWins | translators/translators.py:148-150 | every entry is the value of the last pair with that key |
| CharTables.LookupGraph | translators/translators.py:169-173 | a table whose every pair is (k, f(k)) maps exactly its keys by f |
| CharTables.LookupAppend | translators/translators.py:148-150 | a table built from two concatenated halves answers from the second half for its keys and from the first otherwise |
| CharTables.TranslateChars | translators/translators.py:124-125 | each translated character is a table value or an input character that is not a key |
| Eciho.Collapsed | translators/translators.py:122-130 | after the Cyrillic passes and the collapse, no two neighbours are equal and the text is no longer than the input |
| Eciho.Eciho | translators/translators.py:122-138 | the reply is never longer than the input |
| Eciho.UpperDisjoint | translators/translators.py:126-127 | upper-casing two disjoint tables of lower-case letters leaves them disjoint |
| Eciho.TableFacts | translators/translators.py:122-137 | the four tables use four separate alphabets (lower and upper Cyrillic, lower and upper Latin), and no table's values are its keys |
| Eciho.EcihoAvoidsKeys | translators/translators.py:122-138 | no key of any of the four tables, in either case, appears in the reply |
| Eciho.EcihoRepeatsAfterCollapse | translators/translators.py:130-138 | the Latin passes run after the collapse, so the reply can repeat a character: "ua" becomes "oo" |
| Eciho.EcihoCollapsesEveryAlphabet | translators/translators.py:130 | the collapse acts on every character, not only Cyrillic: "ll" becomes "l" and "11" becomes "1" |
| FlipText.FlipChar | translators/translators.py:148-151 | one character through `str.maketrans(up + down, down + up)`; split by table half in FlipCharSplit |
| FlipText.Flipped | translators/translators.py:147-151 | the casefolded, translated and reversed text; described position by position in FlippedAt |
| FlipText.FlipText | translators/translators.py:145-159 | the reply: Flipped followed by expansion of ю ы ё й; properties in FlipTextNoClusters and FlipTextLength |
| FlipText.FlipCharSplit | translators/translators.py:145-150 | the table sends a `down` character to the `up` partner of its last occurrence in `down`; only a character of `up` that is absent from `down` goes to its `down` partner |
| FlipText.FlipCharU | translators/translators.py:145-150 | Latin u flips to Cyrillic п, because a later duplicate key wins |
| FlipText.FlipCharB | translators/translators.py:145-150 | b flips to q |
| FlipText.FlipCharQ | translators/translators.py:145-150 | q flips to Cyrillic ь |
| FlipText.FlipCharNotInvolution | translators/translators.py:145-150 | flipping b twice does not give b back, so the table is not an involution |
| FlipText.FlipCharClusters | translators/translators.py:145-157 | a character flips to one of ю ы ё й exactly when it is one of them |
| FlipText.FlippedAt | translators/translators.py:147-151 | before expansion, position i holds the flip of the casefolded character at the mirrored position |
| FlipText.FlipTextNoClusters | translators/translators.py:152-159 | the reply holds none of ю ы ё й |
| FlipText.FlipTextFoldsShha | translators/translators.py:145-151 | the capital Һ of `down` is never reached: casefolding turns it into the small һ, which is no key of the table and is kept |
| FlipText.FlipTextLength | translators/translators.py:147-159 | the reply is longer than the input by the number of ю ы ё й in the casefolded input |
| FullWidth.FullWidthText | translators/translators.py:165-174 | the reply: the lower table then the upper-cased table; characterised by FullWidthIsWide and FullWidthIdempotent |
| FullWidth.Wide | translators/translators.py:165-168 | the reference full-width form of a character: U+3000 for a space, c + 0xFEE0 for `!`..`~`, itself otherwise (TableIsWide, FullWidthIsWide) |
| FullWidth.TableIsWide | translators/translators.py:165-168 | each pair of the first table is a printable ASCII character and its full-width form |
| FullWidth.TableKeys | translators/translators.py:165-166 | the first table's keys are exactly the printable ASCII characters other than capitals |
| FullWidth.UpperTableIsWide | translators/translators.py:171-173 | the upper-cased table also pairs each key with its full-width form |
| FullWidth.UpperTableKeys | translators/translators.py:171-173 | the upper-cased table's keys are exactly the printable ASCII characters other than small letters |
| FullWidth.FullWidthIsWide | translators/translators.py:165-174 | every character becomes its full-width form: c + 0xFEE0 for `!`..`~`, U+3000 for space, itself otherwise; length is kept |
| FullWidth.FullWidthTable | translators/translators.py:165-174 | a character of the half-width table, in either case, becomes the full-width character at the same position |
| FullWidth.FullWidthIdempotent | translators/translators.py:165-174 | converting the reply again changes nothing |
| Leet.Dict | translators/translators.py:187-214 | the dictionary literal after each `random.choice` has drawn one alternative; its keys and values in DictEntry |
| Leet.Leet | translators/translators.py:186-216 | the `leet` reply before boxing: upper-case, then substitute by the drawn dictionary; properties in LeetAt, LeetLetters and LeetNotShorter |
| Leet.Cs | translators/translators.py:222-260 | the `cs` reply before boxing: upper-case, then substitute by the drawn cs dictionary; properties in CsAt, CsNoRussian and CsNotShorter |
| Leet.DictEntry | translators/translators.py:187-214 | the dictionary's keys are the entries' keys, and each value is the alternative drawn for an entry with that key |
| Leet.DictValueAt | translators/translators.py:187-214 | a key of the dictionary takes the alternative drawn for an entry with that key, and names that entry |
| Leet.LeetKeys | translators/translators.py:187-214 | the leet keys are exactly A to Z |
| Leet.LeetAt | translators/translators.py:186-216 | each character of the upper-cased text contributes the alternative drawn for its letter (`Drawn`), the same for every occurrence, or itself when it is not A to Z |
| Leet.Drawn | translators/translators.py:187-214 | what one upper-cased character becomes: the drawn alternative of its letter's entry, or the character itself outside A to Z (property in LeetAt) |
| Leet.LeetValueLetters | translators/translators.py:187-214 | the only Latin letters in any alternative are p and h (F's second choice) and X (W's second choice) |
| Leet.LeetLetters | translators/translators.py:186-216 | a Latin letter in the reply comes from a replacement: p or h when F drew "ph", X when W drew `\X/` |
| Leet.LeetNotShorter | translators/translators.py:186-216 | the reply is at least as long as the message |
| Leet.CsKeys | translators/translators.py:223-258 | the cs keys are exactly the 33 capital Russian letters and `%` |
| Leet.CsValuesAscii | translators/translators.py:223-258 | every cs alternative is written in ASCII |
| Leet.CsNoRussian | translators/translators.py:222-260 | no Russian letter of either case survives in the reply |
| Leet.CsIndex | translators/translators.py:223-258 | every cs key has an entry, and the returned position holds that key |
| Leet.CsDrawn | translators/translators.py:223-258 | what one upper-cased character becomes: the drawn alternative of its cs entry, or the character itself when it is no key (property in CsAt) |
| Leet.CsAt | translators/translators.py:222-260 | each character of the upper-cased text contributes the alternative drawn for its cs entry, the same for every occurrence, or itself when it is not a capital Russian letter or `%` |
| Leet.CsPercent | translators/translators.py:257-260 | `%` always becomes `o\o` |
| Leet.CsNotShorter | translators/translators.py:222-260 | the reply is at least as long as the message |
| Emojify.EmojiOf | translators/translators.py:290-296 | the reference definition of both passes: a letter of either case goes to its regional indicator, a listed symbol to its emoji, anything else is kept (EmojifiedIsEmojiOf) |
| Emojify.Emojified | translators/translators.py:291-296 | the text after the two tables; equal to EmojiOf on every character (EmojifiedIsEmojiOf) |
| Emojify.Spaced | translators/translators.py:298 | the text after each space becomes two ideographic spaces (SpacedNoSpace) |
| Emojify.Emojify | translators/translators.py:290-311 | the reply; a single substitution after line 299 (EmojifyIsSubstitution), framed by zero-width spaces (EmojifyFramed), with no digit or plain space left (EmojifyNoDigitsOrSpaces) |
| Emojify.TablesGraph | translators/translators.py:290-295 | both tables pair each key with its emoji: a letter's regional indicator at the same alphabet position, or the listed symbol |
| Emojify.CharKeys | translators/translators.py:290 | the first table's keys are the small letters and ↓↑←→—.! |
| Emojify.UpperCharKeys | translators/translators.py:294 | the second table's keys are the capital letters and the same symbols |
| Emojify.TranOutsideUpper | translators/translators.py:291-296 | no emoji is a key of the second table, so the second pass leaves the first pass's output alone |
| Emojify.EmojifiedIsEmojiOf | translators/translators.py:290-296 | after both passes, letters of either case are regional indicators and the symbols are their emoji; everything else is kept |
| Emojify.RulesIndependent | translators/translators.py:300-311 | the digit and keycap rules have distinct keys, and no rule's text holds a later key |
| Emojify.RulesAreKeycaps | translators/translators.py:300-311 | the rule chain builds exactly the dictionary of digit names and keycaps |
| Emojify.EmojifyIsSubstitution | translators/translators.py:297-311 | the `replace` chain after the zero-width spaces is one substitution by that dictionary |
| Emojify.InterleavedShape | translators/translators.py:299 | after line 299 the text starts and ends with a zero-width space and has one between every two characters |
| Emojify.SpacedNoSpace | translators/translators.py:298 | after line 298 no plain space is left |
| Emojify.EmojifyNoDigitsOrSpaces | translators/translators.py:298-311 | no ASCII digit and no plain space appears in the reply |
| Emojify.EmojifyFramed | translators/translators.py:299-311 | the reply starts and ends with a zero-width space |
| Translation.Strip | translators/translators.py:39 | `str.strip("`")`; characterised by StripTrims and TrimmedUnique |
| Translation.StripTrims | translators/translators.py:39 | stripping removes only backticks, only at the ends, and the result neither starts nor ends with one |
| Translation.TrimmedUnique | translators/translators.py:39 | any text with those properties is the stripped text |
| Translation.StripIdempotent | translators/translators.py:39 | stripping twice is stripping once |
| Translation.ClassifyTranslateError | translators/translators.py:44-60 | the message chosen for a translation error; a round trip in ClassifyRoundTrip |
| Translation.ClassifyDetectError | translators/translators.py:68-71 | the message chosen for a detection error (ClassifyDetectSplit) |
| Translation.ClassifyRoundTrip | translators/translators.py:44-60 | each of the five codes selects its own message, and every error string can be read back from its class |
| Translation.ClassifyOther | translators/translators.py:44-60 | any other string gets the generic message, which carries the string itself |
| Translation.ServiceUnavailableSpelling | translators/translators.py:57-58 | only the spelling `ERR_SERVICE_NOT_AVAIBLE` selects the service message; `ERR_SERVICE_NOT_AVAILABLE` gets the generic one |
| Translation.ClassifyDetectSplit | translators/translators.py:67-71 | detection errors split only on `ERR_LANG_NOT_SUPPORTED` |
| Translation.ParseLanguage | translators/translators.py:62-76 | what the language argument sets: detection, a source-target pair, or nothing (ParseCases, ParseJoined) |
| Translation.ParseJoined | translators/translators.py:74-76 | two 2-letter codes joined by any character split back into source and target; the separator is never checked |
| Translation.ParseCases | translators/translators.py:62-76 | length 2 asks for detection, length 5 splits into characters 0-1 and 3-4, and every other length sets nothing |
| Translation.TranslateReply | translators/translators.py:33-83 | the reply of `translate` for given provider answers: the translation failure first, then detection for a 2-character argument, then the response code, the crashes and the translated pair; properties in TranslateFailureFirst to EscapedCrashes |
| Translation.TranslateFailureFirst | translators/translators.py:41-60 | a failed translation request decides the reply, whatever detection would answer |
| Translation.DetectionOnlyForTarget | translators/translators.py:62-76 | the detection answer matters only for a 2-character language argument |
| Translation.DetectionFailureEnds | translators/translators.py:64-72 | with a 2-character argument, a failed detection ends the command, whatever the response code |
| Translation.TranslatedPair | translators/translators.py:74-79 | a source-target argument with a code-200 response reports both codes upper-cased, the stripped input and the first translation |
| Translation.TranslatedDetected | translators/translators.py:64-79 | with a target-only argument, the detected language is reported as the input's |
| Translation.CrashCases | translators/translators.py:62-83 | after a successful detection, a code-200 response crashes the handler before any message exactly when the argument is neither 2 nor 5 long, and after the `Input` message (with the source language upper-cased and the stripped text) exactly when a pair is formed but the response has no text |
| Translation.EscapedCrashes | translators/translators.py:40-43 | an exception other than `YandexTranslateException` from the translation request always escapes the handler; one from detection escapes exactly when detection is made, that is for a 2-character argument (lines 64-67), and when it is not made the reply crashes only through the `None.upper()` of a code-200 response to an argument neither 2 nor 5 long |
| Speech.Prefix | translators/translators.py:98 | the `[:n]` slice, as at line 98 (`text[:200]`) and line 113 (`text[:32]`) (PrefixShape, PrefixPrefix) |
| Speech.PrefixShape | translators/translators.py:98 | the slice is a prefix of the text, as long as the text or the limit, whichever is shorter, and a short text is kept whole |
| Speech.SpeechText | translators/translators.py:98 | `text[:200]`; bounds in SpeechTextBounds |
| Speech.SpeechRequest | translators/translators.py:99-101 | the request: the cut text and the language (SpeechTextBounds) |
| Speech.FileName | translators/translators.py:113 | `"{}.mp3".format(text[:32])` of the cut text (FileNameShape) |
| Speech.SayReply | translators/translators.py:98-113 | the reply of `googlesay` once the service has answered (SayReplyCases) |
| Speech.PrefixPrefix | translators/translators.py:98-113 | cutting at 200 and then at 32 is cutting at 32 |
| Speech.SpeechTextBounds | translators/translators.py:98-101 | the query sent is a prefix of the text of at most 200 characters, the whole text when it is short enough, and the language is passed on |
| Speech.FileNameShape | translators/translators.py:113 | the file name is the first (at most) 32 characters of the text followed by `.mp3` |
| Speech.SayReplyCases | translators/translators.py:99-113 | a file is sent exactly on status 200, with the body as audio; another status is reported with its code, and any exception as unreachable |

## Left out

- Network: the translation provider's `translate` and `detect` calls (lines 41-42, 66) and the speech service request (lines 99-108). Their answers are parameters. The URL quoting with `parse.quote` and the request headers are not modelled.
- Bot plumbing: `bot.say`, `send_file`, `send_cmd_help`, the `chat` formatting helpers (`box`, `error`, `inline`, `pagify`), command registration and `async`. These are output formatting in a library that is not part of this model. Replies are datatypes, not message strings.
- Configuration: loading and saving the API key, `translate_api` (lines 86-91), `check_folders`, `check_files` and `setup` (lines 321-341). These are file I/O.
- `base64 encode` / `decode` (lines 263-284) and `urlencode` (lines 313-318). They are one-line wrappers over the standard library's RFC 4648 and RFC 3986 codecs.
- Upper, Lower: Python's full Unicode case tables are not modelled. `Upper` and `Lower` cover ASCII letters, the Cyrillic block U+0400..U+045F, Һ/һ (U+04BA/U+04BB) and full-width Latin letters, and fix every other character. Case mappings that change length (such as `ß` to `SS`) are not modelled either.
- UpperText, CaseFold: because of this, the `fliptext`, `leet` and `cs` replies differ from Python's on characters that Python's case tables send onto a table key from outside the modelled ranges. Python casefolds Ǝ to ǝ, Ɔ to ɔ, Ɐ to ɐ, the Kelvin sign to k, ſ to s, Greek Ε to ε, and ᲀ..ᲆ to small Cyrillic letters, and then `fliptext` flips them. It upper-cases ı to I, ſ to S and ᲀ..ᲆ to В, Д, О, С, Т, Т, Ъ, and then `leet` or `cs` replaces them. The model keeps all of these characters unchanged.
- `random.choice`: the draws are the `picks` parameter, one valid index per dictionary entry.
- Lone surrogates: a Python `str` can hold them but a Dafny `char` cannot.
