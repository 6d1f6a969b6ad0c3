/** The `googlesay` command (translators/translators.py, lines 93-115): the text is
    cut to 200 characters and sent to the speech service; a successful answer is
    attached as an MP3 file named after the first 32 characters of the cut text.
    The service's answer is a parameter: this module does no I/O. */
module Speech {

  const SpeechLimit: nat := 200
  const NameLimit: nat := 32

  /** `s[:n]`: the first `n` characters, or all of them when there are fewer. */
  function Prefix(s: string, n: nat): string
  {
    if |s| <= n then s else s[..n]
  }

  /** The text that is spoken (line 98). */
  function SpeechText(text: string): string
  {
    Prefix(text, SpeechLimit)
  }

  /** The attachment's file name (line 113). */
  function FileName(text: string): string
  {
    Prefix(SpeechText(text), NameLimit) + ".mp3"
  }

  /** What the HTTP request produced: a status and a body, or an exception on the way
      (any exception, as the handler's bare `except` catches all). */
  datatype Fetch = Answered(status: int, body: seq<bv8>) | Failed

  /** The request the handler sends: the spoken text and the language code. */
  datatype Request = Request(query: string, language: string)

  datatype Reply =
    | SendFile(fileName: string, audio: seq<bv8>)
    | ServiceCode(code: int)
    | Unreachable

  function SpeechRequest(language: string, text: string): Request
  {
    Request(SpeechText(text), language)
  }

  /** The reply of `googlesay` once the service has answered `fetch`. */
  function SayReply(text: string, fetch: Fetch): Reply
  {
    match fetch
    case Failed => Unreachable
    case Answered(status, body) =>
      if status != 200 then ServiceCode(status) else SendFile(FileName(text), body)
  }

  /** `Prefix` keeps a prefix of the text, as long as the text or the limit, and
      leaves a short text alone. */
  lemma PrefixShape(s: string, n: nat)
    ensures |Prefix(s, n)| == if |s| <= n then |s| else n
    ensures Prefix(s, n) == s[..|Prefix(s, n)|]
    ensures |s| <= n ==> Prefix(s, n) == s
  {
  }

  /** Cutting at `m` and then at `n <= m` is cutting at `n`. */
  lemma PrefixPrefix(s: string, m: nat, n: nat)
    requires n <= m
    ensures Prefix(Prefix(s, m), n) == Prefix(s, n)
  {
    if |s| > m {
      assert s[..m][..n] == s[..n];
    }
  }

  /** The query sent for `language` is a prefix of the input of at most 200
      characters, and a text of 200 characters or fewer is sent whole. */
  lemma SpeechTextBounds(language: string, text: string)
    ensures SpeechRequest(language, text).language == language
    ensures |SpeechRequest(language, text).query| <= SpeechLimit
    ensures SpeechRequest(language, text).query <= text
    ensures |text| <= SpeechLimit ==> SpeechRequest(language, text).query == text
    ensures |text| > SpeechLimit ==> |SpeechRequest(language, text).query| == SpeechLimit
  {
    PrefixShape(text, SpeechLimit);
  }

  /** The file name is the first (at most) 32 characters of the input itself followed
      by `.mp3`: the cut to 200 never shortens it further. */
  lemma FileNameShape(text: string)
    ensures FileName(text) == Prefix(text, NameLimit) + ".mp3"
    ensures |FileName(text)| <= NameLimit + 4
    ensures Prefix(text, NameLimit) <= text
  {
    PrefixPrefix(text, SpeechLimit, NameLimit);
    PrefixShape(text, NameLimit);
  }

  /** A file is sent exactly on status 200, with the body as audio; any other status
      is reported with its code, and a failed request as unreachable. */
  lemma SayReplyCases(text: string, fetch: Fetch)
    ensures SayReply(text, fetch).SendFile? <==> fetch.Answered? && fetch.status == 200
    ensures SayReply(text, fetch).SendFile? ==>
      SayReply(text, fetch) == SendFile(Prefix(text, NameLimit) + ".mp3", fetch.body)
    ensures SayReply(text, fetch).ServiceCode? ==>
      fetch.Answered? && fetch.status != 200 && SayReply(text, fetch).code == fetch.status
    ensures SayReply(text, fetch).Unreachable? <==> fetch.Failed?
  {
    FileNameShape(text);
  }
}
