/**
 * The provider identity key of backend/src/ai_employee/domain/connections.py: three segments joined
 * by colons, each percent-encoded as in sections 2.1 and 2.3 of RFC 3986 over UTF-8. The characters
 * a part may not contain (white space and the Unicode categories starting with C) are a parameter.
 */
module IdentityKey {
  import opened Prelude
  import Utf8

  const COLON: Code := 58
  const PERCENT: Code := 37
  const GOOGLE: Text := [103, 111, 111, 103, 108, 101]
  const MICROSOFT: Text := [109, 105, 99, 114, 111, 115, 111, 102, 116]
  const MAX_PART := 255
  const MAX_ENCODED_PART := 12 * MAX_PART

  datatype Rejected = Rejected

  type Forbidden = Code -> bool

  // ---------------------------------------------------------------- percent-encoding of bytes

  /** Letters, digits, `-`, `.`, `_` and `~`. */
  predicate Unreserved(c: Code) {
    48 <= c <= 57 || 65 <= c <= 90 || 97 <= c <= 122 || c == 45 || c == 46 || c == 95 || c == 126
  }

  function UpperHex(n: int): Code
    requires 0 <= n < 16
  {
    if n < 10 then 48 + n else 55 + n
  }

  function QuoteByte(b: Byte): (s: Text)
    ensures 1 <= |s| <= 3 && IsAscii(s) && COLON !in s
  {
    if Unreserved(b) then [b] else [PERCENT, UpperHex(b / 16), UpperHex(b % 16)]
  }

  /** `quote` with the safe characters of the module. */
  function QuoteBytes(bytes: Bytes): (s: Text)
    ensures |bytes| <= |s| <= 3 * |bytes| && IsAscii(s) && COLON !in s
  {
    if bytes == [] then [] else QuoteByte(bytes[0]) + QuoteBytes(bytes[1..])
  }

  /** `unquote_to_bytes` on ASCII text: a malformed escape stays as it is. */
  function UnquoteBytes(s: Text): Bytes
    requires IsAscii(s)
  {
    if s == [] then []
    else if s[0] == PERCENT && |s| >= 3 && HexValue(s[1]).Some? && HexValue(s[2]).Some? then
      [HexValue(s[1]).value * 16 + HexValue(s[2]).value] + UnquoteBytes(s[3..])
    else [s[0]] + UnquoteBytes(s[1..])
  }

  function AsciiRun(s: Text): (n: nat)
    ensures n <= |s| && IsAscii(s[..n])
    ensures n < |s| ==> s[n] >= 128
  {
    if s == [] || s[0] >= 128 then 0
    else
      var n := AsciiRun(s[1..]);
      assert s[..n + 1] == [s[0]] + s[1..][..n];
      n + 1
  }

  /** `unquote` with strict UTF-8: every run of ASCII characters is decoded on its own. */
  function Unquote(s: Text): Option<Text> {
    if PERCENT !in s then Some(s) else UnquoteRuns(s)
  }

  function UnquoteRuns(s: Text): Option<Text> {
    var n := AsciiRun(s);
    if s == [] then Some([])
    else if n == 0 then
      match UnquoteRuns(s[1..])
      case None => None
      case Some(rest) => Some([s[0]] + rest)
    else
      match Utf8.Decode(UnquoteBytes(s[..n]))
      case None => None
      case Some(run) =>
        match UnquoteRuns(s[n..])
        case None => None
        case Some(rest) => Some(run + rest)
  }

  // ---------------------------------------------------------------- one segment

  predicate IsSafePart(forbidden: Forbidden, s: Text, allowEmpty: bool) {
    if s == [] then allowEmpty else forall i :: 0 <= i < |s| ==> !forbidden(s[i])
  }

  function EncodePart(forbidden: Forbidden, s: Text): Result<Text, Rejected> {
    if !IsSafePart(forbidden, s, false) || |s| > MAX_PART || !IsScalarText(s) then Err(Rejected)
    else
      var encoded := QuoteBytes(Utf8.Encode(s));
      if |encoded| > MAX_ENCODED_PART then Err(Rejected) else Ok(encoded)
  }

  function DecodePart(forbidden: Forbidden, s: Text): Result<Text, Rejected> {
    if |s| > MAX_ENCODED_PART then Err(Rejected)
    else match Unquote(s)
      case None => Err(Rejected)
      case Some(decoded) => if EncodePart(forbidden, decoded) == Ok(s) then Ok(decoded) else Err(Rejected)
  }

  // ---------------------------------------------------------------- the key

  /** `split(":")`. */
  function Split(s: Text): (parts: seq<Text>)
    ensures |parts| > 0
  {
    if s == [] then [[]]
    else
      var parts := Split(s[1..]);
      if s[0] == COLON then [[]] + parts else [[s[0]] + parts[0]] + parts[1..]
  }

  /** `canonical_provider_identity_key`. An account with exactly one colon splits into two parts. */
  function Build(forbidden: Forbidden, provider: Text, tenant: Text, account: Text): Result<Text, Rejected> {
    if (provider != GOOGLE && provider != MICROSOFT) || !IsSafePart(forbidden, provider, false) then Err(Rejected)
    else if provider == GOOGLE then
      if tenant != [] then Err(Rejected)
      else
        var segment :- EncodePart(forbidden, account);
        Ok(GOOGLE + [COLON] + [] + [COLON] + segment)
    else if !IsSafePart(forbidden, tenant, false) then Err(Rejected)
    else if |account| > MAX_PART || |Split(account)| != 2 then Err(Rejected)
    else if Split(account)[0] != tenant then Err(Rejected)
    else
      var tenantSegment :- EncodePart(forbidden, tenant);
      var graphSegment :- EncodePart(forbidden, Split(account)[1]);
      Ok(MICROSOFT + [COLON] + tenantSegment + [COLON] + graphSegment)
  }

  /** `parse_provider_identity_key`. */
  function Parse(forbidden: Forbidden, value: Text): Result<(Text, Text, Text), Rejected> {
    var parts := Split(value);
    if |parts| != 3 || (parts[0] != GOOGLE && parts[0] != MICROSOFT) then Err(Rejected)
    else if parts[0] == GOOGLE && parts[1] != [] then Err(Rejected)
    else if parts[0] == GOOGLE then
      var account :- DecodePart(forbidden, parts[2]);
      if Build(forbidden, GOOGLE, [], account) == Ok(value) then Ok((GOOGLE, [], account)) else Err(Rejected)
    else
      var tenant :- DecodePart(forbidden, parts[1]);
      var graph :- DecodePart(forbidden, parts[2]);
      var account := tenant + [COLON] + graph;
      if Build(forbidden, MICROSOFT, tenant, account) == Ok(value) then Ok((MICROSOFT, tenant, account))
      else Err(Rejected)
  }

  /** The account `a:` and an `e` with acute accent in the tenant `a` gives `microsoft:a:%C3%A9`. */
  lemma BuildExample(forbidden: Forbidden)
    requires !forbidden(97) && !forbidden(0xE9) && forall i :: 0 <= i < |MICROSOFT| ==> !forbidden(MICROSOFT[i])
    ensures Build(forbidden, MICROSOFT, [97], [97, COLON, 0xE9]) ==
      Ok(MICROSOFT + [COLON] + [97] + [COLON] + [37, 67, 51, 37, 65, 57])
  {
    SplitExample();
    QuoteExample();
    hide Split, QuoteBytes, Utf8.Encode;
  }

  lemma SplitExample()
    ensures Split([97, COLON, 0xE9]) == [[97], [0xE9]]
  {
    hide Split;
    var last: Text, middle: Text := [0xE9], [COLON, 0xE9];
    SplitStep(0xE9, []);
    assert [0xE9] + [] == last;
    assert [[0xE9] + []] + [[]][1..] == [last];
    assert Split(last) == [last];
    SplitStep(COLON, last);
    assert [COLON] + last == middle && [[]] + [last] == [[], last];
    assert Split(middle) == [[], last];
    SplitStep(97, middle);
    var parts: seq<Text> := [[], last];
    assert [97] + middle == [97, COLON, 0xE9] && parts[1..] == [last] && [97] + parts[0] == [97];
    assert [[97] + parts[0]] + parts[1..] == [[97], last];
  }

  lemma SplitStep(c: Code, s: Text)
    ensures Split([]) == [[]]
    ensures var parts := Split(s);
      Split([c] + s) == if c == COLON then [[]] + parts else [[c] + parts[0]] + parts[1..]
  {
    assert ([c] + s)[1..] == s;
  }

  lemma QuoteExample()
    ensures Utf8.Encode([97]) == [97] && QuoteBytes([97]) == [97]
    ensures Utf8.Encode([0xE9]) == [0xC3, 0xA9] && QuoteBytes([0xC3, 0xA9]) == [37, 67, 51, 37, 65, 57]
  {
    assert [0xC3, 0xA9][1..] == [0xA9] && [0xA9][1..] == [] && [97][1..] == [] && [0xE9][1..] == [];
    assert QuoteBytes([0xA9]) == [37, 65, 57];
  }

  // ---------------------------------------------------------------- round trips

  /** Percent-decoding undoes percent-encoding on every byte string. */
  lemma {:induction false} UnquoteOfQuote(bytes: Bytes)
    ensures UnquoteBytes(QuoteBytes(bytes)) == bytes
  {
    if bytes != [] {
      var head, rest := QuoteByte(bytes[0]), QuoteBytes(bytes[1..]);
      UnquoteOfQuote(bytes[1..]);
      assert (head + rest)[|head|..] == rest;
      assert bytes == [bytes[0]] + bytes[1..];
      if Unreserved(bytes[0]) {
        assert (head + rest)[1..] == rest;
      } else {
        assert (head + rest)[3..] == rest;
      }
    }
  }

  /** Text without a percent sign is its own decoding, so the shortcut for it changes nothing. */
  lemma {:induction false} UnquoteBytesOfPlain(s: Text)
    requires IsAscii(s) && PERCENT !in s
    ensures UnquoteBytes(s) == s
  {
    if s != [] {
      UnquoteBytesOfPlain(s[1..]);
      assert s == [s[0]] + s[1..];
    }
  }

  lemma {:induction false} AsciiRunOfAscii(s: Text)
    requires IsAscii(s)
    ensures AsciiRun(s) == |s|
  {
    if s != [] {
      AsciiRunOfAscii(s[1..]);
    }
  }

  lemma {:induction false} DecodeOfAscii(s: Text)
    requires IsAscii(s)
    ensures Utf8.Encode(s) == s && Utf8.Decode(s) == Some(s)
  {
    Utf8.DecodeOfEncode(s);
    if s != [] {
      DecodeOfAscii(s[1..]);
      assert s == [s[0]] + s[1..];
    }
  }

  lemma UnquoteOfAscii(s: Text)
    requires IsAscii(s)
    ensures Unquote(s) == Utf8.Decode(UnquoteBytes(s))
  {
    if PERCENT !in s {
      UnquoteBytesOfPlain(s);
      DecodeOfAscii(s);
    } else {
      AsciiRunOfAscii(s);
      assert s[..|s|] == s && s[|s|..] == [];
      assert UnquoteRuns([]) == Some([]);
      var decoded := Utf8.Decode(UnquoteBytes(s));
      assert decoded.Some? ==> decoded.value + [] == decoded.value;
    }
  }

  /** Decoding a segment undoes encoding it, whatever is forbidden. */
  lemma DecodeOfEncodePart(forbidden: Forbidden, s: Text)
    requires EncodePart(forbidden, s).Ok?
    ensures var encoded := EncodePart(forbidden, s).value;
      && DecodePart(forbidden, encoded) == Ok(s)
      && COLON !in encoded && encoded != []
  {
    var encoded := QuoteBytes(Utf8.Encode(s));
    UnquoteOfQuote(Utf8.Encode(s));
    UnquoteOfAscii(encoded);
    Utf8.DecodeOfEncode(s);
  }

  /** A part within the raw limit never exceeds the encoded limit: four bytes, three characters each. */
  lemma EncodedLimitIsNeverReached(s: Text)
    requires IsScalarText(s) && |s| <= MAX_PART
    ensures |QuoteBytes(Utf8.Encode(s))| <= MAX_ENCODED_PART
  {
  }

  lemma {:induction false} SplitWithoutColon(s: Text)
    requires COLON !in s
    ensures Split(s) == [s]
  {
    if s != [] {
      SplitWithoutColon(s[1..]);
      assert s == [s[0]] + s[1..];
    }
  }

  lemma {:induction false} SplitAtColon(s: Text, rest: Text)
    requires COLON !in s
    ensures Split(s + [COLON] + rest) == [s] + Split(rest)
  {
    var all := s + [COLON] + rest;
    if s == [] {
      assert all[1..] == rest;
    } else {
      SplitAtColon(s[1..], rest);
      assert all[1..] == s[1..] + [COLON] + rest;
      assert s == [s[0]] + s[1..];
    }
  }

  lemma SplitOfThree(a: Text, b: Text, c: Text)
    requires COLON !in a && COLON !in b && COLON !in c
    ensures Split(a + [COLON] + b + [COLON] + c) == [a, b, c]
  {
    assert a + [COLON] + b + [COLON] + c == a + [COLON] + (b + [COLON] + c);
    SplitAtColon(a, b + [COLON] + c);
    SplitAtColon(b, c);
    SplitWithoutColon(c);
  }

  /** Splitting into two parts means exactly one colon, between them. */
  lemma {:induction false} SplitIntoTwo(s: Text)
    ensures |Split(s)| == 1 ==> Split(s) == [s] && COLON !in s
    ensures |Split(s)| == 2 ==>
      var parts := Split(s); s == parts[0] + [COLON] + parts[1] && COLON !in parts[0] && COLON !in parts[1]
  {
    if s != [] {
      SplitIntoTwo(s[1..]);
      assert s == [s[0]] + s[1..];
      var rest := Split(s[1..]);
      if |rest| == 2 && s[0] != COLON {
        assert [s[0]] + (rest[0] + [COLON] + rest[1]) == ([s[0]] + rest[0]) + [COLON] + rest[1];
      }
      if |rest| == 1 && s[0] == COLON {
        assert [] + [COLON] + rest[0] == s;
      }
    }
  }

  /** Parsing undoes building: every accepted identity comes back unchanged. */
  lemma ParseOfBuild(forbidden: Forbidden, provider: Text, tenant: Text, account: Text)
    requires Build(forbidden, provider, tenant, account).Ok?
    ensures Parse(forbidden, Build(forbidden, provider, tenant, account).value) == Ok((provider, tenant, account))
  {
    if provider == GOOGLE {
      var segment := EncodePart(forbidden, account).value;
      DecodeOfEncodePart(forbidden, account);
      SplitOfThree(GOOGLE, [], segment);
    } else {
      SplitIntoTwo(account);
      var graph := Split(account)[1];
      DecodeOfEncodePart(forbidden, tenant);
      DecodeOfEncodePart(forbidden, graph);
      SplitOfThree(MICROSOFT, EncodePart(forbidden, tenant).value, EncodePart(forbidden, graph).value);
    }
  }

  /** Building undoes parsing: only canonical keys are accepted. */
  lemma BuildOfParse(forbidden: Forbidden, value: Text)
    requires Parse(forbidden, value).Ok?
    ensures var (provider, tenant, account) := Parse(forbidden, value).value;
      Build(forbidden, provider, tenant, account) == Ok(value)
  {
  }

  /** Distinct identities never share a key. */
  lemma KeysAreInjective(forbidden: Forbidden, p: Text, t: Text, a: Text, p': Text, t': Text, a': Text)
    requires Build(forbidden, p, t, a).Ok? && Build(forbidden, p, t, a) == Build(forbidden, p', t', a')
    ensures p == p' && t == t' && a == a'
  {
    ParseOfBuild(forbidden, p, t, a);
    ParseOfBuild(forbidden, p', t', a');
  }

  ghost predicate Part(forbidden: Forbidden, s: Text) {
    s != [] && |s| <= MAX_PART && IsScalarText(s) && forall i :: 0 <= i < |s| ==> !forbidden(s[i])
  }

  /** The identities that have a key, without reference to any encoding. */
  ghost predicate Acceptable(forbidden: Forbidden, provider: Text, tenant: Text, account: Text) {
    && (forall i :: 0 <= i < |provider| ==> !forbidden(provider[i]))
    && ((provider == GOOGLE && tenant == [] && Part(forbidden, account))
        || (provider == MICROSOFT && |account| <= MAX_PART && Part(forbidden, tenant) && COLON !in tenant
            && exists graph :: account == tenant + [COLON] + graph && Part(forbidden, graph) && COLON !in graph))
  }

  lemma BuildAcceptsExactly(forbidden: Forbidden, provider: Text, tenant: Text, account: Text)
    ensures Build(forbidden, provider, tenant, account).Ok? <==> Acceptable(forbidden, provider, tenant, account)
  {
    if provider == MICROSOFT {
      SplitIntoTwo(account);
      if Acceptable(forbidden, provider, tenant, account) {
        var graph :| account == tenant + [COLON] + graph && Part(forbidden, graph) && COLON !in graph;
        SplitAtColon(tenant, graph);
        SplitWithoutColon(graph);
      } else if |Split(account)| == 2 {
        var graph := Split(account)[1];
      }
    }
  }
}
