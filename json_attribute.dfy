/**
 * `Speakers.GetArribute`: the substring-based field extractor used on the
 * token service's JSON reply. It is not a JSON parser: it looks for the
 * first `"key":`, drops every double quote after it and cuts at the first
 * comma (or, failing that, the first closing brace).
 */
module JsonAttribute {
  import opened Primitives
  import opened Text

  /** The text searched for: `string.Format("\"{0}\":", key)`. */
  function KeyPattern(key: string): string
  {
    "\"" + key + "\":"
  }

  /**
   * The last step of the extractor: `rest` cut before its first `,`, or
   * before its first `}` when it has no comma; empty when it has neither.
   */
  function CutValue(rest: string): (r: string)
    ensures r <= rest
    ensures ',' !in r
  {
    var comma := IndexOf(rest, ",");
    var cut := if comma < 0 then IndexOf(rest, "}") else comma;
    if cut < 0 then ""
    else
      IndexOfCharFindsFirst(rest, ',');
      rest[..cut]
  }

  /**
   * `CutValue` stated without `IndexOf`: the longest comma-free prefix when
   * there is a comma, else the longest brace-free prefix when there is a
   * brace, else empty.
   */
  lemma CutValueCases(rest: string)
    ensures var r := CutValue(rest);
            && (',' in rest ==> r + "," <= rest)
            && (',' !in rest && '}' in rest ==> r + "}" <= rest && '}' !in r)
            && (',' !in rest && '}' !in rest ==> r == "")
  {
    IndexOfCharFindsFirst(rest, ',');
    IndexOfCharFindsFirst(rest, '}');
    var comma := IndexOf(rest, ",");
    if comma != -1 {
      assert CutValue(rest) + "," == rest[..comma + 1];
    } else {
      var brace := IndexOf(rest, "}");
      if brace != -1 {
        assert CutValue(rest) + "}" == rest[..brace + 1];
      }
    }
  }

  /** A value followed by a comma is cut exactly there. */
  lemma CutValueAtComma(v: string, t: string)
    requires ',' !in v
    ensures CutValue(v + "," + t) == v
  {
    IndexOfCharAfterPrefix(v, ',', t);
  }

  /**
   * The body of the extractor once the json is known to be non-null: the
   * text after the first occurrence of `pattern`, with its quotes removed,
   * cut by `CutValue`; empty when `pattern` does not occur.
   */
  function ValueAfter(s: string, pattern: string): (r: string)
    ensures '"' !in r && ',' !in r
    ensures (forall j :: 0 <= j ==> !OccursAt(s, pattern, j)) ==> r == ""
  {
    var pos := IndexOf(s, pattern);
    if pos < 0 then ""
    else
      var rest := Without(s[pos + |pattern|..], '"');
      var r := CutValue(rest);
      assert forall i :: 0 <= i < |r| ==> r[i] == rest[i];
      r
  }

  /**
   * The extractor. A `null` json makes `IndexOf` throw, which the method
   * catches and answers with the empty string, as it does for a missing key
   * and for a value with neither `,` nor `}` after it.
   */
  function GetAttribute(json: Option<string>, key: string): (r: string)
    ensures '"' !in r && ',' !in r
    ensures json.None? ==> r == ""
    ensures json.Some? && (forall j :: 0 <= j ==> !OccursAt(json.value, KeyPattern(key), j)) ==> r == ""
  {
    match json
    case None => ""
    case Some(s) => ValueAfter(s, KeyPattern(key))
  }

  /** Where `IndexOf` finds the pattern, the value is cut from the text after it. */
  lemma ValueAfterFound(s: string, pattern: string, p: nat)
    requires IndexOf(s, pattern) == p
    ensures ValueAfter(s, pattern) == CutValue(Without(s[p + |pattern|..], '"'))
  {
  }

  /**
   * Once the key's first occurrence is at `p`, the result is `CutValue` of
   * the text after the key with its quotes removed, so it is no longer than
   * that text.
   */
  lemma GetAttributeFound(s: string, key: string, p: nat)
    requires OccursAt(s, KeyPattern(key), p)
    requires forall j :: 0 <= j < p ==> !OccursAt(s, KeyPattern(key), j)
    ensures GetAttribute(Some(s), key) == CutValue(Without(s[p + |KeyPattern(key)|..], '"'))
    ensures |GetAttribute(Some(s), key)| <= |s| - p - |KeyPattern(key)|
  {
    var k := KeyPattern(key);
    FirstOccurrence(s, k, p);
    ValueAfterFound(s, k, p);
    assert |CutValue(Without(s[p + |k|..], '"'))| <= |s[p + |k|..]|;
  }

  /** A value followed by a closing brace, with no comma anywhere after the key, is cut at the brace. */
  lemma CutValueAtBrace(v: string, t: string)
    requires ',' !in v + "}" + t
    requires '}' !in v
    ensures CutValue(v + "}" + t) == v
  {
    IndexOfCharFindsFirst(v + "}" + t, ',');
    IndexOfCharAfterPrefix(v, '}', t);
  }

  /**
   * The token service's reply: `{"expires_in":N,"access_token":"T"}`, with
   * the number and the token as given.
   */
  function TokenReply(expiresIn: string, token: string): string
  {
    "{" + KeyPattern("expires_in") + expiresIn + "," + KeyPattern("access_token") + "\"" + token + "\"}"
  }

  /**
   * From a reply of that shape the extractor recovers the number exactly,
   * provided it holds no quote and no comma.
   */
  lemma TokenReplyExpiresIn(expiresIn: string, token: string)
    requires '"' !in expiresIn && ',' !in expiresIn
    ensures GetAttribute(Some(TokenReply(expiresIn, token)), "expires_in") == expiresIn
  {
    var k := KeyPattern("expires_in");
    var t := KeyPattern("access_token") + "\"" + token + "\"}";
    var s := TokenReply(expiresIn, token);
    assert s == "{" + k + (expiresIn + "," + t);
    assert s[1..1 + |k|] == k;
    NoOccurrenceAt(s, k, 0, 0);
    GetAttributeFound(s, "expires_in", 1);
    assert s[1 + |k|..] == (expiresIn + ",") + t;
    WithoutAbsentPrefix(expiresIn + ",", t, '"');
    CutValueAtComma(expiresIn, Without(t, '"'));
  }

  /**
   * From a reply of that shape the extractor recovers the token with its
   * quotes removed, provided it holds no quote, comma or brace.
   */
  lemma TokenReplyAccessToken(expiresIn: string, token: string)
    requires '"' !in expiresIn
    requires '"' !in token && ',' !in token && '}' !in token
    ensures GetAttribute(Some(TokenReply(expiresIn, token)), "access_token") == token
  {
    var k1 := KeyPattern("expires_in");
    var k2 := KeyPattern("access_token");
    var a := "{" + k1 + expiresIn + ",";
    var t := "\"" + token + "\"}";
    var s := TokenReply(expiresIn, token);
    assert s == a + k2 + t;
    assert s[|a|..|a| + |k2|] == k2;
    AccessKeyNotBefore(expiresIn, t);
    GetAttributeFound(s, "access_token", |a|);
    assert s[|a| + |k2|..] == t;
    QuotedLastValue(token);
  }

  /** The `"access_token":` key does not start inside the `expires_in` member before it. */
  lemma AccessKeyNotBefore(expiresIn: string, t: string)
    requires '"' !in expiresIn
    ensures var a := "{" + KeyPattern("expires_in") + expiresIn + ",";
            forall j :: 0 <= j < |a| ==> !OccursAt(a + KeyPattern("access_token") + t, KeyPattern("access_token"), j)
  {
    var k1 := KeyPattern("expires_in");
    var k2 := KeyPattern("access_token");
    assert k1 == "\"expires_in\":";
    assert k2 == "\"access_token\":";
    var a := "{" + k1 + expiresIn + ",";
    var s := a + k2 + t;
    forall j | 0 <= j < |a|
      ensures !OccursAt(s, k2, j)
    {
      assert s[j] == a[j];
      if j == 0 || j >= 14 + |expiresIn| {
        NoOccurrenceAt(s, k2, j, 0);
      } else if j >= 14 {
        assert a[j] == expiresIn[j - 14];
        NoOccurrenceAt(s, k2, j, 0);
      } else if j == 1 || j == 12 {
        assert s[j + 1] == a[j + 1];
        NoOccurrenceAt(s, k2, j, 1);
      } else {
        assert a[j] == k1[j - 1];
        NoOccurrenceAt(s, k2, j, 0);
      }
    }
  }

  /** A quoted value that closes the object is read back without its quotes. */
  lemma QuotedLastValue(token: string)
    requires '"' !in token && ',' !in token && '}' !in token
    ensures CutValue(Without("\"" + token + "\"}", '"')) == token
  {
    var t := "\"" + token + "\"}";
    assert t == "\"" + (token + "\"}");
    assert Without("\"", '"') == "";
    WithoutAppend("\"", token + "\"}", '"');
    WithoutAbsentPrefix(token, "\"}", '"');
    assert Without("\"}", '"') == "}";
    assert Without(t, '"') == token + "}" + "";
    CutValueAtBrace(token, "");
  }

  /** On `{"expires_in":2592000,"access_token":"abc"}` the extractor yields `2592000` and `abc`. */
  lemma SampleReplyAttributes()
    ensures GetAttribute(Some(TokenReply("2592000", "abc")), "expires_in") == "2592000"
    ensures GetAttribute(Some(TokenReply("2592000", "abc")), "access_token") == "abc"
  {
    TokenReplyExpiresIn("2592000", "abc");
    TokenReplyAccessToken("2592000", "abc");
  }
}
