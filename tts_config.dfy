/**
 * `Speakers.BaiduTTSConfig` and the text built from it: the two request
 * URLs, the cache file name and the client id derived from a MAC address.
 */
module TtsConfig {
  import opened Primitives
  import opened Text

  /**
   * The configuration record (a C# struct, so a value). Fields the
   * constructor does not set start out `null`: the credentials, the token
   * and the text.
   */
  datatype Config = Config(
    apiKey: Option<string>,
    secretKey: Option<string>,
    lan: string,
    ctp: string,
    cuid: string,
    tok: Option<string>,
    tex: Option<string>,
    vol: string,
    per: string,
    spd: string,
    pit: string,
    aue: string)

  /** The record the constructor builds around a client id. */
  function DefaultConfig(cuid: string): Config
  {
    Config(None, None, "zh", "1", cuid, None, None, "9", "0", "5", "5", "3")
  }

  const SynthesisEndpoint: string := "http://tsn.baidu.com/text2audio"
  const TokenEndpoint: string := "https://openapi.baidu.com/oauth/2.0/token"

  /** The synthesis request: ten parameters in a fixed order, values inserted as they are. */
  function SynthesisUrl(c: Config): string
  {
    SynthesisEndpoint + "?lan=" + c.lan + "&ctp=" + c.ctp + "&cuid=" + c.cuid
      + "&tok=" + OrEmpty(c.tok) + "&tex=" + OrEmpty(c.tex) + "&vol=" + c.vol
      + "&per=" + c.per + "&spd=" + c.spd + "&pit=" + c.pit + "&aue=" + c.aue
  }

  /** The token request sent by `Init`. */
  function TokenUrl(apiKey: string, secretKey: string): string
  {
    TokenEndpoint + "?grant_type=client_credentials" + "&client_id=" + apiKey + "&client_secret=" + secretKey
  }

  /** The cache file `Speak` writes: `{cachePath}\{stamp}_{tex}.mp3`. */
  function CacheFileName(cachePath: string, stamp: string, tex: string): string
  {
    cachePath + "\\" + stamp + "_" + tex + ".mp3"
  }

  /** The synthesis parameters, by name, in the order the request lists them. */
  function SynthesisParams(c: Config): seq<(string, string)>
  {
    [("lan", c.lan), ("ctp", c.ctp), ("cuid", c.cuid), ("tok", OrEmpty(c.tok)), ("tex", OrEmpty(c.tex)),
     ("vol", c.vol), ("per", c.per), ("spd", c.spd), ("pit", c.pit), ("aue", c.aue)]
  }

  // Reading a URL's query back: the reference the request templates are checked against.

  /** The text after the first `?`, or empty. */
  function QueryString(url: string): string
  {
    var q := IndexOf(url, "?");
    if q < 0 then "" else url[q + 1..]
  }

  /** A `name=value` field, split at its first `=`. */
  function ParseField(f: string): (string, string)
  {
    var e := IndexOf(f, "=");
    if e < 0 then (f, "") else (f[..e], f[e + 1..])
  }

  /** Each field read back as a (name, value) pair, in order. */
  function ParseFields(fields: seq<string>): seq<(string, string)>
  {
    seq(|fields|, i requires 0 <= i < |fields| => ParseField(fields[i]))
  }

  /** The query's fields, split at each `&`, as (name, value) pairs in order. */
  function ParseQuery(url: string): seq<(string, string)>
  {
    ParseFields(Split(QueryString(url), '&'))
  }

  function Field(p: (string, string)): string
  {
    p.0 + "=" + p.1
  }

  /** Each pair written as a `name=value` field, in order. */
  function Fields(ps: seq<(string, string)>): seq<string>
  {
    seq(|ps|, i requires 0 <= i < |ps| => Field(ps[i]))
  }

  /** A name without `=` is read back with its value. */
  lemma ParseFieldOf(name: string, value: string)
    requires '=' !in name
    ensures ParseField(name + "=" + value) == (name, value)
  {
    IndexOfCharAfterPrefix(name, '=', value);
    var f := name + "=" + value;
    assert f[..|name|] == name;
    assert f[|name| + 1..] == value;
  }

  /** A query written from pairs whose names lack `=` and whose values lack `&` reads back as those pairs. */
  lemma {:induction false} QueryRoundTrip(base: string, ps: seq<(string, string)>)
    requires '?' !in base
    requires |ps| >= 1
    requires forall i :: 0 <= i < |ps| ==> '=' !in ps[i].0 && '&' !in ps[i].0 && '&' !in ps[i].1
    ensures ParseQuery(base + "?" + JoinWith(Fields(ps), '&')) == ps
  {
    var q := JoinWith(Fields(ps), '&');
    IndexOfCharAfterPrefix(base, '?', q);
    assert QueryString(base + "?" + q) == q;
    var fs := Fields(ps);
    forall i | 0 <= i < |fs|
      ensures '&' !in fs[i]
    {
      assert fs[i] == ps[i].0 + ("=" + ps[i].1);
    }
    SplitJoin(fs, '&');
    var r := ParseQuery(base + "?" + q);
    forall i | 0 <= i < |ps|
      ensures r[i] == ps[i]
    {
      ParseFieldOf(ps[i].0, ps[i].1);
    }
  }

  /** Text followed by `&name=` and a value is that text, the separator and the field. */
  lemma AppendSeparated(a: string, name: string, value: string)
    ensures a + ("&" + name + "=") + value == a + ['&'] + (name + "=" + value)
  {
    assert "&" + name + "=" == ['&'] + name + "=";
  }

  /** Appending `&name=value` to a joined query appends one field. */
  lemma AppendField(prefix: string, fields: seq<string>, name: string, value: string)
    requires |fields| >= 1
    ensures prefix + JoinWith(fields, '&') + ("&" + name + "=") + value
         == prefix + JoinWith(fields + [name + "=" + value], '&')
  {
    var f := name + "=" + value;
    var joined := JoinWith(fields, '&');
    JoinWithSnoc(fields, f, '&');
    AppendSeparated(prefix + joined, name, value);
    SeparatedAssoc(prefix, joined, f);
  }

  lemma SeparatedAssoc(a: string, b: string, f: string)
    ensures a + (b + ['&'] + f) == a + b + ['&'] + f
  {
  }

  /** Adding a pair to a list adds its field to the fields. */
  lemma FieldsSnoc(ps: seq<(string, string)>, p: (string, string))
    ensures Fields(ps + [p]) == Fields(ps) + [Field(p)]
  {
    var l, r := Fields(ps + [p]), Fields(ps) + [Field(p)];
    assert |l| == |r|;
    forall i | 0 <= i < |l|
      ensures l[i] == r[i]
    {
      assert (ps + [p])[i] == if i < |ps| then ps[i] else p;
    }
  }

  /** Appending `&name=value` to a query written from pairs writes one pair more. */
  lemma AppendPair(pre: string, ps: seq<(string, string)>, name: string, value: string)
    requires |ps| >= 1
    ensures pre + JoinWith(Fields(ps), '&') + ("&" + name + "=") + value
         == pre + JoinWith(Fields(ps + [(name, value)]), '&')
  {
    FieldsSnoc(ps, (name, value));
    AppendField(pre, Fields(ps), name, value);
  }

  /** The synthesis request is the endpoint followed by its ten parameters joined with `&`. */
  lemma SynthesisUrlFields(c: Config)
    ensures SynthesisUrl(c) == SynthesisEndpoint + "?" + JoinWith(Fields(SynthesisParams(c)), '&')
  {
    var pre := SynthesisEndpoint + "?";
    var head := SynthesisHead(c);
    var u := SynthesisEndpoint + "?lan=" + c.lan + "&ctp=" + c.ctp + "&cuid=" + c.cuid
      + "&tok=" + OrEmpty(c.tok) + "&tex=" + OrEmpty(c.tex);
    SynthesisTail(c, pre, u, head);
    SynthesisParamsInOrder(c);
  }

  /** The parameter list, one pair at a time. */
  lemma SynthesisParamsInOrder(c: Config)
    ensures SynthesisParams(c)
         == [("lan", c.lan)] + [("ctp", c.ctp)] + [("cuid", c.cuid)] + [("tok", OrEmpty(c.tok))]
            + [("tex", OrEmpty(c.tex))] + [("vol", c.vol)] + [("per", c.per)] + [("spd", c.spd)]
            + [("pit", c.pit)] + [("aue", c.aue)]
  {
  }

  /** The template up to the text: the endpoint and the first five parameters, lan to tex. */
  lemma SynthesisHead(c: Config) returns (ps: seq<(string, string)>)
    ensures ps == [("lan", c.lan)] + [("ctp", c.ctp)] + [("cuid", c.cuid)] + [("tok", OrEmpty(c.tok))]
                  + [("tex", OrEmpty(c.tex))]
    ensures SynthesisEndpoint + "?lan=" + c.lan + "&ctp=" + c.ctp + "&cuid=" + c.cuid
              + "&tok=" + OrEmpty(c.tok) + "&tex=" + OrEmpty(c.tex)
         == SynthesisEndpoint + "?" + JoinWith(Fields(ps), '&')
  {
    var pre := SynthesisEndpoint + "?";
    ps := [("lan", c.lan)];
    assert Fields(ps) == ["lan" + "=" + c.lan];
    assert SynthesisEndpoint + "?lan=" + c.lan == pre + JoinWith(Fields(ps), '&');
    var url := SynthesisEndpoint + "?lan=" + c.lan;
    assert "&ctp=" == "&" + "ctp" + "=";
    AppendPair(pre, ps, "ctp", c.ctp);
    url, ps := url + "&ctp=" + c.ctp, ps + [("ctp", c.ctp)];
    assert "&cuid=" == "&" + "cuid" + "=";
    AppendPair(pre, ps, "cuid", c.cuid);
    url, ps := url + "&cuid=" + c.cuid, ps + [("cuid", c.cuid)];
    assert "&tok=" == "&" + "tok" + "=";
    AppendPair(pre, ps, "tok", OrEmpty(c.tok));
    url, ps := url + "&tok=" + OrEmpty(c.tok), ps + [("tok", OrEmpty(c.tok))];
    assert "&tex=" == "&" + "tex" + "=";
    AppendPair(pre, ps, "tex", OrEmpty(c.tex));
    url, ps := url + "&tex=" + OrEmpty(c.tex), ps + [("tex", OrEmpty(c.tex))];
  }

  /** The rest of the template: the last five parameters, vol to aue, appended to a query. */
  lemma SynthesisTail(c: Config, pre: string, u: string, ps: seq<(string, string)>)
    requires |ps| >= 1 && u == pre + JoinWith(Fields(ps), '&')
    ensures u + "&vol=" + c.vol + "&per=" + c.per + "&spd=" + c.spd + "&pit=" + c.pit + "&aue=" + c.aue
         == pre + JoinWith(Fields(ps + [("vol", c.vol)] + [("per", c.per)] + [("spd", c.spd)]
                                  + [("pit", c.pit)] + [("aue", c.aue)]), '&')
  {
    var url, qs := u, ps;
    assert "&vol=" == "&" + "vol" + "=";
    AppendPair(pre, qs, "vol", c.vol);
    url, qs := url + "&vol=" + c.vol, qs + [("vol", c.vol)];
    assert "&per=" == "&" + "per" + "=";
    AppendPair(pre, qs, "per", c.per);
    url, qs := url + "&per=" + c.per, qs + [("per", c.per)];
    assert "&spd=" == "&" + "spd" + "=";
    AppendPair(pre, qs, "spd", c.spd);
    url, qs := url + "&spd=" + c.spd, qs + [("spd", c.spd)];
    assert "&pit=" == "&" + "pit" + "=";
    AppendPair(pre, qs, "pit", c.pit);
    url, qs := url + "&pit=" + c.pit, qs + [("pit", c.pit)];
    assert "&aue=" == "&" + "aue" + "=";
    AppendPair(pre, qs, "aue", c.aue);
  }

  /**
   * Reading the synthesis request back gives exactly the ten parameters, in
   * the order lan, ctp, cuid, tok, tex, vol, per, spd, pit, aue, as long as
   * no value holds a `&` (values are inserted without URL-encoding).
   */
  lemma SynthesisQuery(c: Config)
    requires forall i :: 0 <= i < 10 ==> '&' !in SynthesisParams(c)[i].1
    ensures ParseQuery(SynthesisUrl(c)) == SynthesisParams(c)
  {
    SynthesisUrlFields(c);
    SynthesisParamsPlain(c);
    QueryRoundTrip(SynthesisEndpoint, SynthesisParams(c));
  }

  /** No synthesis parameter name holds `=` or `&`, and the values hold no `&` when the config's do not. */
  lemma SynthesisParamsPlain(c: Config)
    requires forall i :: 0 <= i < 10 ==> '&' !in SynthesisParams(c)[i].1
    ensures var ps := SynthesisParams(c);
            forall i :: 0 <= i < |ps| ==> '=' !in ps[i].0 && '&' !in ps[i].0 && '&' !in ps[i].1
  {
    var ps := SynthesisParams(c);
    forall i | 0 <= i < |ps|
      ensures '=' !in ps[i].0 && '&' !in ps[i].0 && '&' !in ps[i].1
    {
      assert ps[i].1 == SynthesisParams(c)[i].1;
    }
  }

  /** The synthesis fields with the `tex` field split in two at a `&` in the text. */
  lemma SynthesisFieldsSplitAtText(c: Config, before: string, after: string)
    requires OrEmpty(c.tex) == before + "&" + after
    requires '&' !in before && '&' !in after
    requires forall i :: 0 <= i < 10 && i != 4 ==> '&' !in SynthesisParams(c)[i].1
    ensures var fs := Fields(SynthesisParams(c));
            var gs := fs[..4] + ["tex=" + before, after] + fs[5..];
            && JoinWith(fs, '&') == JoinWith(gs, '&')
            && |gs| == 11
            && forall i :: 0 <= i < |gs| ==> '&' !in gs[i]
  {
    var ps := SynthesisParams(c);
    var fs := Fields(ps);
    assert fs == fs[..4] + [fs[4]] + fs[5..];
    assert fs[4] == "tex=" + before + "&" + after;
    JoinWithSplitsField(fs[..4], "tex=" + before, after, fs[5..], '&');
    var gs := fs[..4] + ["tex=" + before, after] + fs[5..];
    SynthesisFieldsOutsideText(c);
    forall i | 0 <= i < |gs|
      ensures '&' !in gs[i]
    {
      if i < 4 {
        assert gs[i] == fs[i];
      } else if i > 5 {
        assert gs[i] == fs[i - 1];
      }
    }
  }

  /** Every synthesis field but the text's is free of `&` when its value is. */
  lemma SynthesisFieldsOutsideText(c: Config)
    requires forall i :: 0 <= i < 10 && i != 4 ==> '&' !in SynthesisParams(c)[i].1
    ensures var fs := Fields(SynthesisParams(c));
            forall i :: 0 <= i < 10 && i != 4 ==> '&' !in fs[i]
  {
    var ps := SynthesisParams(c);
    var fs := Fields(ps);
    forall i | 0 <= i < 10 && i != 4
      ensures '&' !in fs[i]
    {
      assert fs[i] == ps[i].0 + ("=" + SynthesisParams(c)[i].1);
    }
  }

  /**
   * Because the text is not URL-encoded, a `&` in it starts a new field: the
   * request then reads back as eleven fields and `tex` holds only the text
   * before the `&`.
   */
  lemma SynthesisQueryAmpersandInText(c: Config, before: string, after: string)
    requires OrEmpty(c.tex) == before + "&" + after
    requires '&' !in before && '&' !in after && '=' !in before
    requires forall i :: 0 <= i < 10 && i != 4 ==> '&' !in SynthesisParams(c)[i].1
    ensures |ParseQuery(SynthesisUrl(c))| == 11
    ensures ParseQuery(SynthesisUrl(c))[4] == ("tex", before)
    ensures ParseQuery(SynthesisUrl(c))[5] == ParseField(after)
  {
    SynthesisUrlFields(c);
    SynthesisFieldsSplitAtText(c, before, after);
    var fs := Fields(SynthesisParams(c));
    var gs := fs[..4] + ["tex=" + before, after] + fs[5..];
    var q := JoinWith(gs, '&');
    IndexOfCharAfterPrefix(SynthesisEndpoint, '?', q);
    assert QueryString(SynthesisEndpoint + "?" + q) == q;
    SplitJoin(gs, '&');
    assert gs[4] == "tex" + "=" + before;
    ParseFieldOf("tex", before);
  }

  /** The token request's three parameters, in order. */
  function TokenParams(apiKey: string, secretKey: string): seq<(string, string)>
  {
    [("grant_type", "client_credentials"), ("client_id", apiKey), ("client_secret", secretKey)]
  }

  /** The token request is its endpoint followed by its three parameters joined with `&`. */
  lemma TokenUrlFields(apiKey: string, secretKey: string)
    ensures TokenUrl(apiKey, secretKey) == TokenEndpoint + "?" + JoinWith(Fields(TokenParams(apiKey, secretKey)), '&')
  {
    var pre := TokenEndpoint + "?";
    var ps := [("grant_type", "client_credentials")];
    var first := "grant_type" + "=" + "client_credentials";
    TokenTemplatePieces();
    Assoc(TokenEndpoint, "?", first);
    assert Fields(ps) == [first];
    AppendPair(pre, ps, "client_id", apiKey);
    AppendPair(pre, ps + [("client_id", apiKey)], "client_secret", secretKey);
    assert ps + [("client_id", apiKey)] + [("client_secret", secretKey)] == TokenParams(apiKey, secretKey);
  }

  /** The literal pieces of the token template, cut at the field boundaries. */
  lemma TokenTemplatePieces()
    ensures "?grant_type=client_credentials" == "?" + ("grant_type" + "=" + "client_credentials")
    ensures "&client_id=" == "&" + "client_id" + "="
    ensures "&client_secret=" == "&" + "client_secret" + "="
  {
  }

  lemma Assoc(a: string, b: string, c: string)
    ensures a + (b + c) == a + b + c
  {
  }

  /** Reading the token request back gives its three parameters when neither key holds a `&`. */
  lemma TokenQuery(apiKey: string, secretKey: string)
    requires '&' !in apiKey && '&' !in secretKey
    ensures ParseQuery(TokenUrl(apiKey, secretKey)) == TokenParams(apiKey, secretKey)
  {
    TokenUrlFields(apiKey, secretKey);
    TokenParamsPlain(apiKey, secretKey);
    QueryRoundTrip(TokenEndpoint, TokenParams(apiKey, secretKey));
  }

  /** No token parameter name holds `=` or `&`, and the values hold no `&` when the keys do not. */
  lemma TokenParamsPlain(apiKey: string, secretKey: string)
    requires '&' !in apiKey && '&' !in secretKey
    ensures var ps := TokenParams(apiKey, secretKey);
            forall i :: 0 <= i < |ps| ==> '=' !in ps[i].0 && '&' !in ps[i].0 && '&' !in ps[i].1
  {
    var ps := TokenParams(apiKey, secretKey);
    assert '=' !in ps[0].0 && '&' !in ps[0].0 && '&' !in ps[0].1;
    assert '=' !in ps[1].0 && '&' !in ps[1].0;
    assert '=' !in ps[2].0 && '&' !in ps[2].0;
  }

  // The client id: `GetMacByNetworkInterface`.

  function HexDigit(d: int): char
    requires 0 <= d < 16
  {
    if d < 10 then ('0' as int + d) as char else ('A' as int + d - 10) as char
  }

  function HexValue(c: char): (d: int)
    ensures 0 <= d < 16
  {
    if '0' <= c <= '9' then c as int - '0' as int
    else if 'A' <= c <= 'F' then c as int - 'A' as int + 10
    else 0
  }

  /** Two upper-case hexadecimal digits. */
  function ByteHex(b: byte): string
  {
    [HexDigit(b as int / 16), HexDigit(b as int % 16)]
  }

  /** `BitConverter.ToString`: each byte as two hex digits, separated by `-`. */
  function HexString(bs: seq<byte>): (r: string)
    ensures |bs| == 0 ==> r == ""
    ensures |bs| > 0 ==> |r| == 3 * |bs| - 1
  {
    if |bs| == 0 then ""
    else if |bs| == 1 then ByteHex(bs[0])
    else ByteHex(bs[0]) + "-" + HexString(bs[1..])
  }

  /** Reads `AA-BB-...` back into bytes. */
  function ParseHexString(s: string): seq<byte>
    decreases |s|
  {
    if |s| < 2 then []
    else
      var b := (HexValue(s[0]) * 16 + HexValue(s[1])) as byte;
      if |s| < 3 then [b] else [b] + ParseHexString(s[3..])
  }

  /** The hex form loses nothing: it reads back as the address it was made from. */
  lemma {:induction false} HexStringRoundTrip(bs: seq<byte>)
    ensures ParseHexString(HexString(bs)) == bs
  {
    if |bs| >= 1 {
      var b := bs[0];
      assert HexValue(HexDigit(b as int / 16)) * 16 + HexValue(HexDigit(b as int % 16)) == b as int;
      if |bs| > 1 {
        var s := HexString(bs);
        assert s[3..] == HexString(bs[1..]);
        HexStringRoundTrip(bs[1..]);
      }
    }
  }

  const DefaultMac: string := "00-00-00-00-00-00"

  /**
   * The first network interface's address in hex, or the all-zero default
   * when there is none. `None` stands for an enumeration that throws, which
   * the method catches and also answers with the default.
   */
  function MacAddress(interfaces: Option<seq<seq<byte>>>): (r: string)
    ensures interfaces.None? || interfaces.value == [] ==> r == DefaultMac
    ensures interfaces.Some? && interfaces.value != [] ==> ParseHexString(r) == interfaces.value[0]
  {
    if interfaces.None? || interfaces.value == [] then DefaultMac
    else
      HexStringRoundTrip(interfaces.value[0]);
      HexString(interfaces.value[0])
  }

  /** The default is what an all-zero six-byte address prints as. */
  lemma DefaultMacIsZeroAddress()
    ensures HexString([0, 0, 0, 0, 0, 0]) == DefaultMac
  {
  }
}
