/**
 * The English-to-Chinese translator wrapper: the blank-text guard, the
 * extraction of the translated text from the service's JSON reply, and the
 * three attempts that fall back to the original text.
 */
module Translate {
  import opened Wrappers
  import opened Strings
  import Json

  /** Number of requests made for one text before giving up. */
  const MaxAttempts: nat := 3

  /**
   * What one request to the service yields: `Failed` when the request, the
   * UTF-8 decoding or the JSON parsing raised, otherwise the decoded reply.
   */
  datatype Response = Failed | Payload(body: Json.Value)

  /** The first element of a reply part that is a non-empty list starting with a string; "" for any other part. */
  function FirstString(part: Json.Value): string {
    if part.Array? && part.items != [] && part.items[0].String? then part.items[0].str else ""
  }

  /** The `"".join(part[0] for part in parts if ...)` of the reply's first element. */
  function JoinFirstStrings(parts: seq<Json.Value>): string {
    if parts == [] then "" else FirstString(parts[0]) + JoinFirstStrings(parts[1..])
  }

  /** Each reply part contributes on its own: joining two runs of parts is joining each and concatenating. */
  lemma {:induction false} JoinAppend(a: seq<Json.Value>, b: seq<Json.Value>)
    ensures JoinFirstStrings(a + b) == JoinFirstStrings(a) + JoinFirstStrings(b)
  {
    if a != [] {
      assert (a + b)[1..] == a[1..] + b;
      JoinAppend(a[1..], b);
    } else {
      assert a + b == b;
    }
  }

  /** Parts that are not non-empty lists starting with a string add nothing to the join. */
  lemma {:induction false} JoinSkipsOtherParts(parts: seq<Json.Value>)
    requires forall i :: 0 <= i < |parts| ==> !(parts[i].Array? && parts[i].items != [] && parts[i].items[0].String?)
    ensures JoinFirstStrings(parts) == ""
  {
    if parts != [] {
      JoinSkipsOtherParts(parts[1..]);
    }
  }

  /**
   * The translated text of one reply: present only when the reply is a
   * non-empty list whose first element is a list and the stripped join of its
   * parts is not empty.
   */
  function ExtractTranslation(payload: Json.Value): Option<string> {
    if payload.Array? && payload.items != [] && payload.items[0].Array? then
      var translated := Strip(JoinFirstStrings(payload.items[0].items));
      if translated != "" then Some(translated) else None
    else
      None
  }

  /**
   * A translation taken from a reply is already stripped and is not blank:
   * it starts and ends with a character that is not whitespace.
   */
  lemma ExtractedIsStripped(payload: Json.Value)
    requires ExtractTranslation(payload).Some?
    ensures var t := ExtractTranslation(payload).value;
            t != "" && !IsSpace(t[0]) && !IsSpace(t[|t| - 1]) && !IsBlank(t)
  {
    StripSpec(JoinFirstStrings(payload.items[0].items));
  }

  /** A reply that is not a non-empty list headed by a list yields no translation. */
  lemma MalformedReplyYieldsNothing(payload: Json.Value)
    requires !(payload.Array? && payload.items != [] && payload.items[0].Array?)
    ensures ExtractTranslation(payload).None?
  {
  }

  function AttemptResult(response: Response): Option<string> {
    match response
    case Failed => None
    case Payload(body) => ExtractTranslation(body)
  }

  /** The first attempt, from `attempt` on, that yields a translation. */
  function FirstTranslation(text: string, fetch: (string, nat) -> Response, attempt: nat): Option<string>
    decreases MaxAttempts - attempt
  {
    if attempt >= MaxAttempts then None
    else
      match AttemptResult(fetch(text, attempt))
      case Some(t) => Some(t)
      case None => FirstTranslation(text, fetch, attempt + 1)
  }

  /** `google_translate_en_to_zh(text)` against a service whose reply to the n-th request for `text` is `fetch(text, n)`. */
  function TranslateEnToZh(text: string, fetch: (string, nat) -> Response): string {
    if IsBlank(text) then text else FirstTranslation(text, fetch, 0).GetOr(text)
  }

  /** The translator the locale sync calls, for a given service. */
  function Translator(fetch: (string, nat) -> Response): string -> string {
    text => TranslateEnToZh(text, fetch)
  }

  /** The retry loop: up to three requests, the first usable translation wins, otherwise the text itself. */
  method TranslateWithRetries(text: string, fetch: (string, nat) -> Response) returns (r: string)
    ensures r == TranslateEnToZh(text, fetch)
  {
    if IsBlank(text) {
      return text;
    }
    var attempt := 0;
    while attempt < MaxAttempts
      invariant attempt <= MaxAttempts
      invariant FirstTranslation(text, fetch, attempt) == FirstTranslation(text, fetch, 0)
    {
      match fetch(text, attempt) {
        case Failed =>
        case Payload(body) =>
          var translated := ExtractTranslation(body);
          if translated.Some? {
            assert FirstTranslation(text, fetch, attempt) == translated;
            return translated.value;
          }
      }
      attempt := attempt + 1;
    }
    assert FirstTranslation(text, fetch, attempt).None?;
    return text;
  }

  /** No translation comes out of the attempts from `attempt` on exactly when none of them yields one. */
  lemma {:induction false} NoTranslationIffAllAttemptsFail(text: string, fetch: (string, nat) -> Response, attempt: nat)
    ensures FirstTranslation(text, fetch, attempt).None? <==>
              forall i :: attempt <= i < MaxAttempts ==> AttemptResult(fetch(text, i)).None?
    decreases MaxAttempts - attempt
  {
    if attempt < MaxAttempts {
      NoTranslationIffAllAttemptsFail(text, fetch, attempt + 1);
    }
  }

  /**
   * A translation that comes out of the attempts from `attempt` on is the one
   * of some attempt `i`, and every attempt before `i` yielded none.
   */
  lemma {:induction false} TranslationIsFromEarliestAttempt(text: string, fetch: (string, nat) -> Response, attempt: nat)
    requires FirstTranslation(text, fetch, attempt).Some?
    ensures exists i :: attempt <= i < MaxAttempts
              && AttemptResult(fetch(text, i)) == FirstTranslation(text, fetch, attempt)
              && forall j :: attempt <= j < i ==> AttemptResult(fetch(text, j)).None?
    decreases MaxAttempts - attempt
  {
    var r := FirstTranslation(text, fetch, attempt);
    if AttemptResult(fetch(text, attempt)).Some? {
      assert AttemptResult(fetch(text, attempt)) == r;
    } else {
      TranslationIsFromEarliestAttempt(text, fetch, attempt + 1);
      var i :| attempt + 1 <= i < MaxAttempts
                && AttemptResult(fetch(text, i)) == r
                && forall j :: attempt + 1 <= j < i ==> AttemptResult(fetch(text, j)).None?;
      assert forall j :: attempt <= j < i ==> AttemptResult(fetch(text, j)).None?;
    }
  }

  /** Whatever attempt it comes from, a translation is not blank. */
  lemma {:induction false} FirstTranslationNotBlank(text: string, fetch: (string, nat) -> Response, attempt: nat)
    requires FirstTranslation(text, fetch, attempt).Some?
    ensures !IsBlank(FirstTranslation(text, fetch, attempt).value)
    decreases MaxAttempts - attempt
  {
    var response := fetch(text, attempt);
    if AttemptResult(response).Some? {
      ExtractedIsStripped(response.body);
    } else {
      FirstTranslationNotBlank(text, fetch, attempt + 1);
    }
  }

  /** Whitespace-only text comes back unchanged whatever the service would answer: it is never sent. */
  lemma BlankTextIsNotSent(text: string, fetch: (string, nat) -> Response, other: (string, nat) -> Response)
    requires IsBlank(text)
    ensures TranslateEnToZh(text, fetch) == text
    ensures TranslateEnToZh(text, other) == TranslateEnToZh(text, fetch)
  {
  }

  /** When no attempt yields a translation, the original text is returned. */
  lemma FailedAttemptsReturnText(text: string, fetch: (string, nat) -> Response)
    requires forall i :: 0 <= i < MaxAttempts ==> AttemptResult(fetch(text, i)).None?
    ensures TranslateEnToZh(text, fetch) == text
  {
    NoTranslationIffAllAttemptsFail(text, fetch, 0);
  }

  /** The wrapper's result is blank exactly when its input is. */
  lemma TranslationBlankIffTextBlank(text: string, fetch: (string, nat) -> Response)
    ensures IsBlank(TranslateEnToZh(text, fetch)) <==> IsBlank(text)
  {
    if !IsBlank(text) && FirstTranslation(text, fetch, 0).Some? {
      FirstTranslationNotBlank(text, fetch, 0);
    }
  }

  /**
   * The wrapper returns "" only for "", so the sync's fallback
   * `translated or en_value` never changes what the wrapper returned.
   */
  lemma FallbackIsRedundant(text: string, fetch: (string, nat) -> Response)
    ensures TranslateEnToZh(text, fetch) == "" ==> text == ""
  {
    var r := TranslateEnToZh(text, fetch);
    if r == "" {
      assert AllSpace(r);
      TranslationBlankIffTextBlank(text, fetch);
    }
  }
}
