# BaiduSpeechDemo speakers, modelled in Dafny

This project models `Speakers`, the class at the core of BaiduSpeechDemo. It
talks to Baidu's text-to-speech service and caches the synthesised audio.

The class does five things:

- It holds one `BaiduTTSConfig` record: credentials, token, text and voice
  parameters. It also holds an `initStatus` flag.
- `Init` exchanges an API key and a secret key for an access token at the
  OAuth endpoint. It accepts the token only while the reply's `expires_in`
  is positive.
- `Speak` stores the text in the record and builds the ten-parameter
  synthesis URL. It then downloads the MP3 into a cache file named after a
  time stamp and the text.
- `HttpPostMessage` copies the response body into that file. It copies one
  buffer at a time and stops at the first read that returns nothing.
- `GetArribute` pulls a value out of the JSON reply by substring search. It
  is not a JSON parser.

Modules, one per file:

- `Primitives` (`primitives.dfy`): `Option` (a C# `null` string is `None`),
  `byte`, `IsNullOrEmpty`, and the empty rendering of `null` used by
  `string.Format`.
- `Text` (`text.dfy`): the string operations the class relies on.
  - Ordinal `IndexOf`, with its first-occurrence contract.
  - `Replace(c, "")` as `Without`.
  - Splitting and joining on a separator. These are a reference definition
    for reading a URL's query back.
- `JsonAttribute` (`json_attribute.dfy`): `GetArribute` and its properties.
- `NumberParse` (`number_parse.dfy`): `long.Parse` under the default
  integer style. Surrounding white space, an optional sign and decimal
  digits are accepted, within the 64-bit range. `None` stands for the
  `FormatException` or `OverflowException` it throws.
- `TtsConfig` (`tts_config.dfy`): the configuration record and its
  constructor defaults. It also holds the two request URLs, the cache file
  name and the MAC-address client id. The URL templates are read back with
  a query parser, which proves the order and names of the parameters.
- `SpeakerSession` (`speaker_session.dfy`):
  - The token decision of `Init`.
  - The download as a function of the reply.
  - The `Speakers` class with `Init`, `Speak` and `HttpPostMessage` as
    methods that update its fields.
  - The lazily created shared instance.

The outside world enters as parameters:

- `Init` receives the body the token service returns, or `None` when the
  request throws.
- `Speak` receives the cache directory, the time stamp and the synthesis
  reply.
- The reply (`HttpReply`) gives the declared content length and the chunks
  successive reads return. It also says whether the read after them throws.
- The methods return the URL they request and the bytes they write, so the
  contracts can state them.

The code has no request queue, no long-lived worker threads and no URL
encoding of the text. `Init` hands its token step to a thread-pool worker,
and everything else runs on the caller's thread. The model follows this:

- `Init` runs its one thread-pool callback to completion at the call.
- `Speak` downloads synchronously.
- The text goes into the URL as it is. `TtsConfig.SynthesisQueryAmpersandInText`
  shows what follows: a `&` in the text cuts the `tex` parameter short and
  turns the rest into an extra parameter.

Two details of the code shape the model:

- `HttpPostRequest` closes `response` in a `finally` block even when
  `GetResponse` threw and `response` is still `null`. The resulting
  `NullReferenceException` reaches the callback's `catch`, which clears
  `initStatus`. That is the same outcome as an empty body, so a failed
  request is the single input `None`.
- `GetArribute` never returns `null`. So `token ?? baiduTTS.tok` always takes
  the token, and `Init` stores the extracted text whenever the expiry check
  passes, even when it is empty.

## Model

| member | source | states |
|---|---|---|
| Text.IndexOf | BaiduSpeechDemo/Speakers.cs:266 | the result is -1 or a position where the key starts, and the key starts nowhere before it (so -1 means it does not occur at all) |
| Text.IndexOfCharFindsFirst | BaiduSpeechDemo/Speakers.cs:271-274 | searching for one character gives -1 exactly when it is absent, and otherwise a position holding it with no earlier copy |
| Text.IndexOfCharAfterPrefix | BaiduSpeechDemo/Speakers.cs:271-274 | in `a + [c] + t` with `c` not in `a`, the character is found at `|a|` |
| Text.Without | BaiduSpeechDemo/Speakers.cs:270 | removing every `"` leaves no `"` and never lengthens the text |
| Text.WithoutCounts | BaiduSpeechDemo/Speakers.cs:270 | the removal keeps every other character, as many times as before, and no copy of the removed one |
| Text.WithoutAbsent | BaiduSpeechDemo/Speakers.cs:270 | removing a character that does not occur changes nothing |
| Text.WithoutAppend | BaiduSpeechDemo/Speakers.cs:270 | removal distributes over concatenation |
| JsonAttribute.KeyPattern | BaiduSpeechDemo/Speakers.cs:265 | the searched pattern `"key":`; no contract of its own, `GetAttributeFound`, `TokenReplyExpiresIn` and `TokenReplyAccessToken` state what searching for it yields |
| JsonAttribute.CutValue | BaiduSpeechDemo/Speakers.cs:271-279 | the value is a prefix of the text after the key and holds no comma |
| JsonAttribute.CutValueCases | BaiduSpeechDemo/Speakers.cs:271-279 | with a comma, the value is everything before the first comma. With no comma but a `}`, it is everything before the first `}`. With neither, it is empty |
| JsonAttribute.CutValueAtComma | BaiduSpeechDemo/Speakers.cs:271-278 | `v + "," + t` with no comma in `v` gives `v` |
| JsonAttribute.CutValueAtBrace | BaiduSpeechDemo/Speakers.cs:274-278 | `v + "}" + t` with no comma anywhere and no `}` in `v` gives `v` |
| JsonAttribute.ValueAfter | BaiduSpeechDemo/Speakers.cs:266-279 | the lookup on a non-null reply never holds `"` or a comma, and is "" when the pattern occurs nowhere |
| JsonAttribute.GetAttribute | BaiduSpeechDemo/Speakers.cs:261-286 | the result holds no `"` and no comma. A null reply (the caught exception) gives "". A reply without `"key":` gives "" |
| JsonAttribute.GetAttributeFound | BaiduSpeechDemo/Speakers.cs:265-279 | when `"key":` first occurs at `p`, the result is the cut of the quote-free text after it, and is no longer than that text |
| JsonAttribute.TokenReplyExpiresIn | BaiduSpeechDemo/Speakers.cs:98 | on a reply `{"expires_in":E,"access_token":"T"}` the `expires_in` lookup yields `E` |
| JsonAttribute.TokenReplyAccessToken | BaiduSpeechDemo/Speakers.cs:108 | on the same reply the `access_token` lookup yields `T` with its quotes removed |
| JsonAttribute.QuotedLastValue | BaiduSpeechDemo/Speakers.cs:270-278 | a quoted last value before the closing brace comes back without its quotes |
| JsonAttribute.SampleReplyAttributes | BaiduSpeechDemo/Speakers.cs:98-108 | the reply `{"expires_in":2592000,"access_token":"abc"}` yields `2592000` and `abc` |
| NumberParse.ParseLong | BaiduSpeechDemo/Speakers.cs:99 | every accepted value lies in the 64-bit signed range |
| NumberParse.ParseLongDecimal | BaiduSpeechDemo/Speakers.cs:99 | the decimal form of any `n` up to 2^63-1 parses back to `n` |
| NumberParse.ParseDigits | BaiduSpeechDemo/Speakers.cs:99 | a run of decimal digits parses to its value when that is at most 2^63-1, and is rejected otherwise |
| NumberParse.ParseNegativeDigits | BaiduSpeechDemo/Speakers.cs:99 | `-` followed by decimal digits parses to minus their value when that is at least -2^63, and is rejected otherwise |
| NumberParse.ParseLongNegative | BaiduSpeechDemo/Speakers.cs:99 | `-` followed by digits worth at most 2^63 parses to minus their value |
| NumberParse.ParseLongPadded | BaiduSpeechDemo/Speakers.cs:99 | white space before and after a number does not change what it parses to |
| NumberParse.ParseLongNeedsDigit | BaiduSpeechDemo/Speakers.cs:99 | text without a digit, the empty text included, is rejected |
| NumberParse.ParseLongOverflow | BaiduSpeechDemo/Speakers.cs:99 | a decimal above 2^63-1 is rejected |
| NumberParse.NegativeOverflow | BaiduSpeechDemo/Speakers.cs:99 | a negative decimal below -2^63 is rejected |
| TtsConfig.DefaultConfig | BaiduSpeechDemo/Speakers.cs:59-69 | the record the constructor builds; no contract of its own, `Speakers.constructor` and `Speakers.Instance` state the resulting state |
| TtsConfig.SynthesisUrl | BaiduSpeechDemo/Speakers.cs:140-141 | the synthesis request text; no contract of its own, `SynthesisUrlFields`, `SynthesisQuery` and `SynthesisQueryAmpersandInText` state its shape and what reads back from it |
| TtsConfig.SynthesisUrlFields | BaiduSpeechDemo/Speakers.cs:140-141 | the synthesis URL is the endpoint, `?` and the ten `name=value` fields joined by `&`, in the order lan, ctp, cuid, tok, tex, vol, per, spd, pit, aue |
| TtsConfig.SynthesisQuery | BaiduSpeechDemo/Speakers.cs:140-141 | when no value holds `&`, reading the URL's query back gives exactly the ten parameters and their values. A null token or text reads back as an empty value |
| TtsConfig.SynthesisQueryAmpersandInText | BaiduSpeechDemo/Speakers.cs:139-141 | a text `before&after` yields eleven parameters: `tex` carries only `before`, and `after` becomes a parameter of its own |
| TtsConfig.TokenUrl | BaiduSpeechDemo/Speakers.cs:92-93 | the token request text; no contract of its own, `TokenUrlFields` and `TokenQuery` state its shape and what reads back from it |
| TtsConfig.TokenUrlFields | BaiduSpeechDemo/Speakers.cs:92-93 | the token URL is the OAuth endpoint with grant_type, client_id and client_secret fields |
| TtsConfig.TokenQuery | BaiduSpeechDemo/Speakers.cs:92-93 | with no `&` in the keys, the query reads back as `grant_type=client_credentials`, the API key and the secret key |
| TtsConfig.CacheFileName | BaiduSpeechDemo/Speakers.cs:142 | the cache file name `<cache>\<stamp>_<text>.mp3`; no contract of its own, `Speakers.Speak` states that the download writes to it |
| TtsConfig.HexString | BaiduSpeechDemo/Speakers.cs:250 | the hex form of `n > 0` bytes has `3n - 1` characters, and that of no bytes is empty |
| TtsConfig.HexStringRoundTrip | BaiduSpeechDemo/Speakers.cs:250 | the dash-separated hex form reads back to the same bytes |
| TtsConfig.MacAddress | BaiduSpeechDemo/Speakers.cs:243-258 | with no interface, or when enumeration throws, the id is `00-00-00-00-00-00`. Otherwise it reads back to the first interface's address |
| TtsConfig.DefaultMacIsZeroAddress | BaiduSpeechDemo/Speakers.cs:257 | the default id is what an all-zero six-byte address prints as |
| SpeakerSession.TokenOutcome | BaiduSpeechDemo/Speakers.cs:95-117 | a failed token request never yields a token. `TokenOutcomeOfAnyReply` gives the rule for every reply, and the lemmas below give particular replies |
| SpeakerSession.TokenOutcomeOfAnyReply | BaiduSpeechDemo/Speakers.cs:98-111 | for every reply, the step succeeds exactly when the extracted `expires_in` parses to a positive number, and the new token is then the extracted `access_token` |
| SpeakerSession.TokenOutcomeMissingExpiry | BaiduSpeechDemo/Speakers.cs:98-99 | a reply without `"expires_in":` fails, because "" does not parse |
| SpeakerSession.TokenOutcomeByExpiry | BaiduSpeechDemo/Speakers.cs:98-111 | with a decimal expiry `n`, the step succeeds exactly when `0 < n <= 2^63-1` |
| SpeakerSession.TokenOutcomePaddedExpiry | BaiduSpeechDemo/Speakers.cs:98-111 | with white space around the decimal expiry `n`, as in `"expires_in": 2592000`, the step still succeeds exactly when `0 < n <= 2^63-1` |
| SpeakerSession.TokenOutcomeNegativeExpiry | BaiduSpeechDemo/Speakers.cs:99-104 | a negative expiry fails, whether it parses or overflows |
| SpeakerSession.TokenOutcomeMissingToken | BaiduSpeechDemo/Speakers.cs:108-111 | a reply that passes the expiry check but has no `"access_token":` still succeeds, with the empty token |
| SpeakerSession.TokenOutcomeOfReply | BaiduSpeechDemo/Speakers.cs:95-111 | on `{"expires_in":n,"access_token":"T"}` the outcome is `T` when `0 < n <= 2^63-1`, and failure otherwise |
| SpeakerSession.SampleTokenOutcome | BaiduSpeechDemo/Speakers.cs:95-111 | an expiry of 2592000 with the token `abc` gives `abc` |
| SpeakerSession.Download | BaiduSpeechDemo/Speakers.cs:185-215 | a non-empty result is the path and comes with a file. A file is created exactly when the URL and path are non-empty and the reply has a positive content length. `DownloadWritesWholeBody` and `DownloadReadThrows` give its result and contents when the reads end cleanly and when the next read throws |
| SpeakerSession.Copied | BaiduSpeechDemo/Speakers.cs:199-205 | the copied reads are a prefix of the reads, all non-empty, and the next read, if any, is empty |
| SpeakerSession.CopiedStopsAtEmptyRead | BaiduSpeechDemo/Speakers.cs:199-205 | if the first `i` reads are non-empty and read `i` is empty or absent, exactly those `i` reads are copied |
| SpeakerSession.CopiedIsPrefixOfBody | BaiduSpeechDemo/Speakers.cs:199-205 | the file holds a prefix of the body the server sent |
| SpeakerSession.DownloadWritesWholeBody | BaiduSpeechDemo/Speakers.cs:194-208 | with a positive content length and no empty or failing read, the call returns the path and the file holds the whole body |
| SpeakerSession.DownloadReadThrows | BaiduSpeechDemo/Speakers.cs:199-215 | when the read after the body's non-empty reads throws, the call returns "" and the file keeps the whole body copied before it |
| SpeakerSession.ConcatBound | BaiduSpeechDemo/Speakers.cs:198-204 | with reads of at most one 8 KiB buffer each, the file holds at most 8 KiB per read |
| SpeakerSession.DownloadBound | BaiduSpeechDemo/Speakers.cs:198-204 | when no read returns more than the 8 KiB buffer, the downloaded file holds at most 8 KiB per read of the reply |
| SpeakerSession.Speakers.constructor | BaiduSpeechDemo/Speakers.cs:54-76 | lan `zh`, ctp `1`, vol `9`, per `0`, spd `5`, pit `5`, aue `3`, the MAC id as cuid, null credentials, token and text, and `initStatus` false |
| SpeakerSession.Speakers.Init | BaiduSpeechDemo/Speakers.cs:78-126 | if either key is null or empty, nothing changes and nothing is requested. Otherwise the keys are stored and the token URL is requested. `initStatus` becomes whether the token step succeeded. On success the token is replaced, and on failure it is kept |
| SpeakerSession.Speakers.Speak | BaiduSpeechDemo/Speakers.cs:133-152 | empty or null text returns "" and changes nothing. Otherwise only `tex` changes, the URL is the synthesis URL of the updated record, the file is `<cache>\<stamp>_<text>.mp3`, and the result is that download's. `initStatus` never changes |
| SpeakerSession.Speakers.HttpPostMessage | BaiduSpeechDemo/Speakers.cs:181-216 | the copy loop's result and file equal the download function's. The result is "" or the path. An empty URL or path gives "" and no file |
| SpeakerSession.SpeakersInstance.Instance | BaiduSpeechDemo/Speakers.cs:16-21 | the first call creates a fresh object in its default state and keeps it. Every later call returns that same object |

## Left out

- Text.IndexOf: the comparison is ordinal. `String.IndexOf(string)` compares
  under the current culture, which can skip ignorable characters. The keys
  searched for are ASCII.
- NumberParse.ParseLong: does not model culture-specific sign symbols or the
  trailing NUL characters `long.Parse` also accepts. White space is the ASCII
  set U+0009–U+000D plus space.
- JsonAttribute.GetAttribute: the key is a plain string, not a nullable one.
  `string.Format` writes a null key as the empty string, so a null key
  behaves as the key `""`, which the model covers.
- SpeakerSession.Speakers.HttpPostMessage: does not model a `FileStream`
  that cannot be created. The source returns "" and writes no file then, for
  example when the text holds characters not allowed in file names.
- SpeakerSession.Speakers.HttpPostMessage: does not model a null URL or path.
  `Speak` never passes null.
- SpeakerSession.Speakers.HttpPostMessage: after a read throws, the file's
  contents are the bytes written so far. Stream buffering and the unclosed
  file handle are not modelled.
- SpeakerSession.Speakers.Init: does not model the thread pool. The callback
  runs at the call. In the source it runs later, so `initStatus` and the
  token change after `Init` returns, and a `Speak` in between uses the old
  token.
- SpeakerSession.SpeakersInstance.Instance: does not model two threads
  racing to create the instance.
- HTTP traffic (`HttpPostRequest`, `GetResponse`, stream reads) is not
  modelled. Replies are parameters, and the timeouts only show up as a
  missing reply.
- `GetCachePath` and `DateTime.Now` are not modelled. The cache directory and
  the time stamp are parameters.
- `Debug.WriteLine` logging is not modelled. It has no effect on state.
- MainWindow.xaml.cs, the window that calls `Instance`, `Init` and `Speak`,
  is not part of this model.
