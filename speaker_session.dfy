/**
 * The `Speakers` object: a configuration record, an `initStatus` flag, and
 * the three operations the window calls. Network, file system and clock are
 * inputs: the token service's reply, the synthesis service's reply, the
 * cache directory and the time stamp. The thread-pool callback in `Init`
 * runs as a synchronous step.
 */
module SpeakerSession {
  import opened Primitives
  import opened JsonAttribute
  import opened NumberParse
  import opened TtsConfig

  /** Size of the copy buffer in `HttpPostMessage`. */
  const BufferSize: nat := 8 * 1024

  /**
   * What the synthesis service answers. `NoResponse`: `GetResponse` threw
   * (time-out, a non-success status, no connection). Otherwise the declared
   * content length and the successive results of reading the body stream;
   * after the listed chunks the stream returns 0, unless `failsAfter` says
   * that the next read throws instead.
   */
  datatype HttpReply =
    | NoResponse
    | Response(contentLength: int, chunks: seq<seq<byte>>, failsAfter: bool)

  /**
   * The chunks the copy loop consumes: every read up to, not including, the
   * first that returns nothing.
   */
  function Copied(chunks: seq<seq<byte>>): (r: seq<seq<byte>>)
    ensures r <= chunks
    ensures forall i :: 0 <= i < |r| ==> r[i] != []
    ensures |r| < |chunks| ==> chunks[|r|] == []
  {
    if chunks == [] || chunks[0] == [] then [] else [chunks[0]] + Copied(chunks[1..])
  }

  /** The copy loop stops at the first empty read: the chunks before it are exactly `Copied`. */
  lemma {:induction false} CopiedStopsAtEmptyRead(chunks: seq<seq<byte>>, i: nat)
    requires i <= |chunks|
    requires forall j :: 0 <= j < i ==> chunks[j] != []
    requires i == |chunks| || chunks[i] == []
    ensures Copied(chunks) == chunks[..i]
  {
    if i > 0 {
      CopiedStopsAtEmptyRead(chunks[1..], i - 1);
      assert [chunks[0]] + chunks[1..][..i - 1] == chunks[..i];
    }
  }

  /** The bytes of successive chunks, one after the other. */
  function Concat(chunks: seq<seq<byte>>): seq<byte>
  {
    if chunks == [] then [] else Concat(chunks[..|chunks| - 1]) + chunks[|chunks| - 1]
  }

  /**
   * What `HttpPostMessage(url, filePath)` does, as a function of the reply:
   * the string it returns and the contents of the file it creates, if any.
   */
  function Download(url: string, filePath: string, reply: HttpReply): (r: (string, Option<seq<byte>>))
    ensures r.0 != "" ==> r.0 == filePath && r.1.Some?
    ensures r.1.Some? <==> url != "" && filePath != "" && reply.Response? && reply.contentLength > 0
  {
    if url == "" || filePath == "" then ("", None)
    else if reply.NoResponse? || reply.contentLength <= 0 then ("", None)
    else
      var copied := Copied(reply.chunks);
      var faulted := reply.failsAfter && |copied| == |reply.chunks|;
      (if faulted then "" else filePath, Some(Concat(copied)))
  }

  /** The outcome of the token step of `Init`: the new token when the step succeeds. */
  function TokenOutcome(response: Option<string>): (tok: Option<string>)
    ensures response.None? ==> tok.None?
  {
    match response
    case None => None
    case Some(json) =>
      match ParseLong(GetAttribute(response, "expires_in"))
      case None => None
      case Some(expiresIn) =>
        if expiresIn <= 0 then None else Some(GetAttribute(response, "access_token"))
  }

  /**
   * For every reply: the step succeeds exactly when the extracted
   * `expires_in` parses to a positive number, and then yields whatever the
   * extractor finds for `access_token`.
   */
  lemma TokenOutcomeOfAnyReply(json: string)
    ensures var e := ParseLong(GetAttribute(Some(json), "expires_in"));
            TokenOutcome(Some(json)).Some? <==> e.Some? && e.value > 0
    ensures TokenOutcome(Some(json)).Some? ==>
              TokenOutcome(Some(json)).value == GetAttribute(Some(json), "access_token")
  {
  }

  /** Without an `"expires_in":` in the reply the extracted text is empty, which does not parse. */
  lemma TokenOutcomeMissingExpiry(json: string)
    requires forall j :: 0 <= j ==> !Text.OccursAt(json, KeyPattern("expires_in"), j)
    ensures TokenOutcome(Some(json)) == None
  {
    assert GetAttribute(Some(json), "expires_in") == "";
    ParseLongNeedsDigit("");
  }

  /**
   * When the extracted `expires_in` is the decimal text of `n`, the step
   * succeeds exactly when `n` is positive and fits in a `long`.
   */
  lemma TokenOutcomeByExpiry(json: string, n: nat)
    requires GetAttribute(Some(json), "expires_in") == DecimalString(n)
    ensures TokenOutcome(Some(json)).Some? <==> 0 < n <= MaxLong
  {
    if n <= MaxLong {
      ParseLongDecimal(n);
    } else {
      ParseLongOverflow(n);
    }
  }

  /**
   * White space around the number, as in `"expires_in": 2592000`, does not
   * change the outcome: the step still succeeds exactly when `n` is positive
   * and fits in a `long`.
   */
  lemma TokenOutcomePaddedExpiry(json: string, before: string, n: nat, after: string)
    requires forall i :: 0 <= i < |before| ==> IsWhite(before[i])
    requires forall i :: 0 <= i < |after| ==> IsWhite(after[i])
    requires GetAttribute(Some(json), "expires_in") == before + DecimalString(n) + after
    ensures TokenOutcome(Some(json)).Some? <==> 0 < n <= MaxLong
  {
    var d := DecimalString(n);
    assert IsDigit(d[0]) && IsDigit(d[|d| - 1]);
    ParseLongPadded(before, d, after);
    if n <= MaxLong {
      ParseLongDecimal(n);
    } else {
      ParseLongOverflow(n);
    }
  }

  /** A negative `expires_in` always fails the step. */
  lemma TokenOutcomeNegativeExpiry(json: string, n: nat)
    requires GetAttribute(Some(json), "expires_in") == "-" + DecimalString(n)
    ensures TokenOutcome(Some(json)) == None
  {
    ParseNegativeDigits(DecimalString(n));
  }

  /**
   * On success the token is whatever the extractor finds for
   * `access_token`, so a reply without that key yields the empty token, not
   * the previous one.
   */
  lemma TokenOutcomeMissingToken(json: string)
    requires TokenOutcome(Some(json)).Some?
    requires forall j :: 0 <= j ==> !Text.OccursAt(json, KeyPattern("access_token"), j)
    ensures TokenOutcome(Some(json)) == Some("")
  {
  }

  /**
   * On a reply of the service's usual shape the step succeeds exactly when
   * the number is positive and in range, and then yields the token.
   */
  lemma TokenOutcomeOfReply(n: nat, token: string)
    requires '"' !in token && ',' !in token && '}' !in token
    ensures TokenOutcome(Some(TokenReply(DecimalString(n), token)))
         == if 0 < n <= MaxLong then Some(token) else None
  {
    var d := DecimalString(n);
    assert '"' !in d && ',' !in d by {
      assert forall i :: 0 <= i < |d| ==> IsDigit(d[i]);
    }
    TokenReplyExpiresIn(d, token);
    TokenReplyAccessToken(d, token);
    TokenOutcomeByExpiry(TokenReply(d, token), n);
  }

  /** On `{"expires_in":2592000,"access_token":"abc"}` the step succeeds with the token `abc`. */
  lemma SampleTokenOutcome()
    ensures TokenOutcome(Some(TokenReply("2592000", "abc"))) == Some("abc")
  {
    DecimalSample();
    TokenOutcomeOfReply(2592000, "abc");
  }

  /** The copy writes the reads it consumes in order: its output begins the whole body. */
  lemma {:induction false} CopiedIsPrefixOfBody(chunks: seq<seq<byte>>)
    ensures Concat(Copied(chunks)) <= Concat(chunks)
  {
    var c := Copied(chunks);
    ConcatPrefix(c, chunks);
  }

  /** Concatenation keeps prefixes. */
  lemma {:induction false} ConcatPrefix(a: seq<seq<byte>>, b: seq<seq<byte>>)
    requires a <= b
    ensures Concat(a) <= Concat(b)
    decreases |b|
  {
    if |a| < |b| {
      ConcatPrefix(a, b[..|b| - 1]);
    } else {
      assert a == b;
    }
  }

  /**
   * A body whose reads are all non-empty and that ends cleanly is written
   * out completely, and the path is returned.
   */
  lemma DownloadWritesWholeBody(url: string, filePath: string, len: int, chunks: seq<seq<byte>>)
    requires url != "" && filePath != "" && len > 0
    requires forall i :: 0 <= i < |chunks| ==> chunks[i] != []
    ensures Download(url, filePath, Response(len, chunks, false)) == (filePath, Some(Concat(chunks)))
  {
    CopiedStopsAtEmptyRead(chunks, |chunks|);
    assert chunks[..|chunks|] == chunks;
  }

  /**
   * A read that throws after the body's non-empty reads makes the call
   * return "", but the file created keeps every byte copied before it.
   */
  lemma DownloadReadThrows(url: string, filePath: string, len: int, chunks: seq<seq<byte>>)
    requires url != "" && filePath != "" && len > 0
    requires forall i :: 0 <= i < |chunks| ==> chunks[i] != []
    ensures Download(url, filePath, Response(len, chunks, true)) == ("", Some(Concat(chunks)))
  {
    CopiedStopsAtEmptyRead(chunks, |chunks|);
    assert chunks[..|chunks|] == chunks;
  }

  /** Each read fills at most the 8 KB buffer, so the file holds at most that much per read. */
  lemma {:induction false} ConcatBound(chunks: seq<seq<byte>>)
    requires forall i :: 0 <= i < |chunks| ==> |chunks[i]| <= BufferSize
    ensures |Concat(chunks)| <= BufferSize * |chunks|
  {
    if chunks != [] {
      ConcatBound(chunks[..|chunks| - 1]);
    }
  }

  /**
   * When no read returns more than the 8 KB buffer, the file the download
   * writes holds at most that much per read of the reply.
   */
  lemma DownloadBound(url: string, filePath: string, reply: HttpReply)
    requires reply.Response?
    requires forall i :: 0 <= i < |reply.chunks| ==> |reply.chunks[i]| <= BufferSize
    ensures Download(url, filePath, reply).1.Some? ==>
              |Download(url, filePath, reply).1.value| <= BufferSize * |reply.chunks|
  {
    var c := Copied(reply.chunks);
    assert forall i :: 0 <= i < |c| ==> c[i] == reply.chunks[i];
    ConcatBound(c);
  }

  /** The window's handle on its one speaker. */
  class Speakers {
    var baiduTTS: Config
    var initStatus: bool

    /** Default voice parameters; the client id comes from the first network interface. */
    constructor (interfaces: Option<seq<seq<byte>>>)
      ensures baiduTTS == DefaultConfig(MacAddress(interfaces))
      ensures baiduTTS.lan == "zh" && baiduTTS.ctp == "1" && baiduTTS.vol == "9" && baiduTTS.per == "0"
      ensures baiduTTS.spd == "5" && baiduTTS.pit == "5" && baiduTTS.aue == "3"
      ensures !initStatus
    {
      baiduTTS := DefaultConfig(MacAddress(interfaces));
      initStatus := false;
    }

    /**
     * Stores the credentials and requests a token, when both are non-empty;
     * otherwise does nothing. `response` is the body the token service
     * returns (`None` when the request throws). Returns the URL requested,
     * if any.
     */
    method Init(apiKey: Option<string>, secretKey: Option<string>, response: Option<string>)
      returns (request: Option<string>)
      modifies this
      ensures IsNullOrEmpty(apiKey) || IsNullOrEmpty(secretKey) ==>
                request == None && baiduTTS == old(baiduTTS) && initStatus == old(initStatus)
      ensures !IsNullOrEmpty(apiKey) && !IsNullOrEmpty(secretKey) ==>
                && request == Some(TokenUrl(apiKey.value, secretKey.value))
                && initStatus == TokenOutcome(response).Some?
                && baiduTTS == old(baiduTTS).(apiKey := apiKey, secretKey := secretKey,
                                              tok := if initStatus then TokenOutcome(response) else old(baiduTTS.tok))
    {
      request := None;
      if !IsNullOrEmpty(apiKey) && !IsNullOrEmpty(secretKey) {
        baiduTTS := baiduTTS.(apiKey := apiKey, secretKey := secretKey);
        request := Some(TokenUrl(baiduTTS.apiKey.value, baiduTTS.secretKey.value));
        var expiresIn := ParseLong(GetAttribute(response, "expires_in"));
        if response.None? || expiresIn.None? {
          initStatus := false;
        } else if expiresIn.value <= 0 {
          initStatus := false;
        } else {
          var token := GetAttribute(response, "access_token");
          baiduTTS := baiduTTS.(tok := Some(token));
          initStatus := true;
        }
      }
    }

    /**
     * Synthesises `text` into a file under `cachePath` named after `stamp`
     * and the text, and returns that file's path, or "" on failure. Returns
     * also the URL requested and the file written, if any.
     */
    method Speak(text: Option<string>, cachePath: string, stamp: string, reply: HttpReply)
      returns (path: string, request: Option<string>, file: Option<seq<byte>>)
      modifies this
      ensures initStatus == old(initStatus)
      ensures IsNullOrEmpty(text) ==>
                path == "" && request == None && file == None && baiduTTS == old(baiduTTS)
      ensures !IsNullOrEmpty(text) ==>
                && baiduTTS == old(baiduTTS).(tex := text)
                && request == Some(SynthesisUrl(baiduTTS))
                && (path, file) == Download(SynthesisUrl(baiduTTS), CacheFileName(cachePath, stamp, text.value), reply)
    {
      path, request, file := "", None, None;
      if !IsNullOrEmpty(text) {
        baiduTTS := baiduTTS.(tex := text);
        var url := SynthesisUrl(baiduTTS);
        var fileName := CacheFileName(cachePath, stamp, baiduTTS.tex.value);
        request := Some(url);
        path, file := HttpPostMessage(url, fileName, reply);
      }
    }

    /**
     * Fetches `url` and copies the body into a new file at `filePath`, one
     * read at a time, until a read returns nothing. Returns `filePath`, or ""
     * when either argument is empty, the content length is not positive or a
     * step throws.
     */
    method HttpPostMessage(url: string, filePath: string, reply: HttpReply)
      returns (result: string, file: Option<seq<byte>>)
      ensures (result, file) == Download(url, filePath, reply)
      ensures result == "" || result == filePath
      ensures url == "" || filePath == "" ==> result == "" && file == None
    {
      if url == "" || filePath == "" {
        return "", None;
      }
      if reply.NoResponse? || reply.contentLength <= 0 {
        return "", None;
      }
      var chunks := reply.chunks;
      var written: seq<byte> := [];
      var i := 0;
      while i < |chunks| && chunks[i] != []
        invariant 0 <= i <= |chunks|
        invariant forall j :: 0 <= j < i ==> chunks[j] != []
        invariant written == Concat(chunks[..i])
      {
        assert chunks[..i + 1][..i] == chunks[..i];
        written := written + chunks[i];
        i := i + 1;
      }
      CopiedStopsAtEmptyRead(chunks, i);
      if i == |chunks| && reply.failsAfter {
        result := "";
      } else {
        result := filePath;
      }
      file := Some(written);
    }
  }

  /**
   * Holder of the lazily created shared instance (`Speakers._instance`, a
   * static field in the source).
   */
  class SpeakersInstance {
    var instance: Speakers?

    constructor ()
      ensures instance == null
    {
      instance := null;
    }

    /** `Speakers.Instance()`: creates the object on first use and returns the same one afterwards. */
    method Instance(interfaces: Option<seq<seq<byte>>>) returns (s: Speakers)
      modifies this
      ensures instance == s
      ensures old(instance) != null ==> s == old(instance)
      ensures old(instance) == null ==> fresh(s) && s.baiduTTS == DefaultConfig(MacAddress(interfaces)) && !s.initStatus
    {
      if instance == null {
        instance := new Speakers(interfaces);
      }
      s := instance;
    }
  }
}
