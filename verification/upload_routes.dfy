/** The upload-signature endpoint (routes/uploadRoutes.js): behind
    `protect`, it checks the three body parameters, renders the four signed
    parameters as sorted `key=value` pairs joined by `&`, appends the API
    secret, and answers with the SHA-1 digest of that string and the API
    key. */
module UploadRoutes {
  import opened Common
  import opened Crypto
  import opened UserModel
  import opened AuthMiddleware
  import opened UriEncoding
  import opened StringSort

  /** `Number.MAX_SAFE_INTEGER`, 2^53 - 1. */
  const MaxSafeInteger: int := 9007199254740991

  /** The integers a JavaScript number holds exactly; `JSON.parse` rounds
      any integer beyond them. */
  type SafeInteger = n: int | -MaxSafeInteger <= n <= MaxSafeInteger

  /** A JSON body value the handler may receive for a parameter. */
  datatype Scalar = Str(text: string) | Num(n: SafeInteger)

  /** JavaScript truthiness of an optional body value. */
  predicate Given(v: Option<Scalar>) {
    match v
    case None => false
    case Some(Str(t)) => |t| > 0
    case Some(Num(n)) => n != 0
  }

  /** `String(v)`, what `encodeURIComponent` converts its argument to. A
      safe integer is below 10^21, so it is written in plain decimal
      digits, never in exponent form. */
  function Render(v: Scalar): (s: string)
    ensures v.Str? ==> s == v.text
    ensures v.Num? && v.n >= 0 ==> IsCanonicalNumeral(s) && ParseDigits(s) == v.n
    ensures v.Num? && v.n < 0 ==> |s| > 1 && s[0] == '-' && IsCanonicalNumeral(s[1..]) && ParseDigits(s[1..]) == -v.n
  {
    match v
    case Str(t) => t
    case Num(n) =>
      if n >= 0 then
        ParseNatToString(n); NatToStringCanonical(n); IntToString(n)
      else
        var d := NatToString(-n);
        ParseNatToString(-n); NatToStringCanonical(-n);
        assert IntToString(n)[1..] == d;
        IntToString(n)
  }

  datatype SignatureBody = SignatureBody(timestamp: Option<Scalar>, publicId: Option<Scalar>, folder: Option<Scalar>)

  /** The configured credentials. */
  datatype CloudConfig = CloudConfig(apiKey: string, apiSecret: string)

  datatype SignatureReply = SignatureReply(signature: Digest, apiKey: string)

  /** The keys of `paramsToSign`, in the order the object literal lists
      them. */
  const ParamKeys: seq<string> := ["public_id", "timestamp", "api_key", "folder"]

  /** The rendered value of each signed parameter. */
  function ParamValues(publicId: string, timestamp: string, apiKey: string, folder: string): (m: map<string, string>)
    ensures m.Keys == {"public_id", "timestamp", "api_key", "folder"}
    ensures m["public_id"] == publicId && m["timestamp"] == timestamp
    ensures m["api_key"] == apiKey && m["folder"] == folder
  {
    map["public_id" := publicId, "timestamp" := timestamp, "api_key" := apiKey, "folder" := folder]
  }

  /** The `${key}=${encodeURIComponent(value)}` pieces for `keys`. */
  function Pairs(keys: seq<string>, values: map<string, string>): (ps: seq<string>)
    requires forall k :: k in keys ==> k in values
    ensures |ps| == |keys|
    ensures forall i :: 0 <= i < |keys| ==> ps[i] == keys[i] + "=" + Encode(values[keys[i]])
  {
    if keys == [] then [] else [keys[0] + "=" + Encode(values[keys[0]])] + Pairs(keys[1..], values)
  }

  /** `sortedParams`: the pairs of the sorted keys, joined by `&`. */
  function SortedParams(publicId: string, timestamp: string, apiKey: string, folder: string): string {
    var values := ParamValues(publicId, timestamp, apiKey, folder);
    var keys := SortStrings(ParamKeys);
    assert forall k :: k in keys ==> k in multiset(ParamKeys);
    Join(Pairs(keys, values), '&')
  }

  /** `stringToSign`: the sorted pairs immediately followed by the secret. */
  function StringToSign(publicId: string, timestamp: string, apiKey: string, folder: string, secret: string): string {
    SortedParams(publicId, timestamp, apiKey, folder) + secret
  }

  /** The sorted key order is api_key, folder, public_id, timestamp. */
  lemma SortedKeyOrder()
    ensures SortStrings(ParamKeys) == ["api_key", "folder", "public_id", "timestamp"]
  {
    KeysInOrder();
    SortedPermutationUnique(SortStrings(ParamKeys), ["api_key", "folder", "public_id", "timestamp"]);
  }

  lemma KeysInOrder()
    ensures SortedStrings(["api_key", "folder", "public_id", "timestamp"])
    ensures multiset(ParamKeys) == multiset(["api_key", "folder", "public_id", "timestamp"])
  {
    var sorted: seq<string> := ["api_key", "folder", "public_id", "timestamp"];
    KeyComparisons();
    forall i, j | 0 <= i < j < |sorted| ensures !StrLess(sorted[j], sorted[i]) {
    }
    assert ParamKeys == [sorted[2], sorted[3], sorted[0], sorted[1]];
  }

  /** How the four keys compare: each pair is decided by its first
      character. */
  lemma KeyComparisons()
    ensures StrLess("api_key", "folder") && StrLess("api_key", "public_id") && StrLess("api_key", "timestamp")
    ensures StrLess("folder", "public_id") && StrLess("folder", "timestamp") && StrLess("public_id", "timestamp")
    ensures !StrLess("folder", "api_key") && !StrLess("timestamp", "api_key") && !StrLess("timestamp", "folder")
    ensures !StrLess("public_id", "api_key") && !StrLess("public_id", "folder") && !StrLess("timestamp", "public_id")
  {
  }

  /** The four `key=value` pieces in sorted key order. */
  function SignedPairs(publicId: string, timestamp: string, apiKey: string, folder: string): seq<string> {
    ["api_key" + "=" + Encode(apiKey), "folder" + "=" + Encode(folder), "public_id" + "=" + Encode(publicId), "timestamp" + "=" + Encode(timestamp)]
  }

  /** The string to sign is the pieces for api_key, folder, public_id and
      timestamp, in that order, joined by `&`, with the secret appended
      directly. */
  lemma {:induction false} StringToSignLayout(publicId: string, timestamp: string, apiKey: string, folder: string, secret: string)
    ensures StringToSign(publicId, timestamp, apiKey, folder, secret) ==
      Join(SignedPairs(publicId, timestamp, apiKey, folder), '&') + secret
  {
    SortedParamsInKeyOrder(publicId, timestamp, apiKey, folder);
    PairsOfSortedKeys(publicId, timestamp, apiKey, folder);
  }

  lemma SortedParamsInKeyOrder(publicId: string, timestamp: string, apiKey: string, folder: string)
    ensures SortedParams(publicId, timestamp, apiKey, folder) ==
      Join(Pairs(["api_key", "folder", "public_id", "timestamp"], ParamValues(publicId, timestamp, apiKey, folder)), '&')
  {
    SortedKeyOrder();
  }

  lemma PairsOfSortedKeys(publicId: string, timestamp: string, apiKey: string, folder: string)
    ensures Pairs(["api_key", "folder", "public_id", "timestamp"], ParamValues(publicId, timestamp, apiKey, folder)) ==
      SignedPairs(publicId, timestamp, apiKey, folder)
  {
    var values := ParamValues(publicId, timestamp, apiKey, folder);
    var ps := Pairs(["api_key", "folder", "public_id", "timestamp"], values);
    assert ps[0] == "api_key" + "=" + Encode(apiKey);
    assert ps[1] == "folder" + "=" + Encode(folder);
    assert ps[2] == "public_id" + "=" + Encode(publicId);
    assert ps[3] == "timestamp" + "=" + Encode(timestamp);
  }

  /** A key without `&` and an encoded value make a piece without `&`. */
  lemma PairHasNoAmpersand(key: string, value: string)
    requires '&' !in key
    ensures '&' !in key + "=" + Encode(value)
  {
    EncodeAlphabet(value);
  }

  lemma DropPrefix(prefix: string, a: string, b: string)
    requires prefix + a == prefix + b
    ensures a == b
  {
    assert a == (prefix + a)[|prefix|..];
    assert b == (prefix + b)[|prefix|..];
  }

  /** The parameter string determines the parameters: splitting it on `&`
      gives back the four pieces, and the encoded values decode back. */
  lemma SortedParamsInjective(p1: string, t1: string, k1: string, f1: string,
                              p2: string, t2: string, k2: string, f2: string)
    ensures SortedParams(p1, t1, k1, f1) == SortedParams(p2, t2, k2, f2) ==>
      p1 == p2 && t1 == t2 && k1 == k2 && f1 == f2
  {
    if SortedParams(p1, t1, k1, f1) == SortedParams(p2, t2, k2, f2) {
      StringToSignLayout(p1, t1, k1, f1, []);
      StringToSignLayout(p2, t2, k2, f2, []);
      var j1 := Join(SignedPairs(p1, t1, k1, f1), '&');
      var j2 := Join(SignedPairs(p2, t2, k2, f2), '&');
      assert j1 + [] == j1 && j2 + [] == j2;
      assert j1 == j2;
      JoinedPairsSplit(p1, t1, k1, f1);
      JoinedPairsSplit(p2, t2, k2, f2);
      SignedPairsInjective(p1, t1, k1, f1, p2, t2, k2, f2);
    }
  }

  /** Splitting the joined pieces on `&` gives the pieces back. */
  lemma JoinedPairsSplit(publicId: string, timestamp: string, apiKey: string, folder: string)
    ensures Split(Join(SignedPairs(publicId, timestamp, apiKey, folder), '&'), '&') == SignedPairs(publicId, timestamp, apiKey, folder)
  {
    PairHasNoAmpersand("api_key", apiKey);
    PairHasNoAmpersand("folder", folder);
    PairHasNoAmpersand("public_id", publicId);
    PairHasNoAmpersand("timestamp", timestamp);
    SplitJoin(SignedPairs(publicId, timestamp, apiKey, folder), '&');
  }

  lemma SignedPairsInjective(p1: string, t1: string, k1: string, f1: string,
                             p2: string, t2: string, k2: string, f2: string)
    requires SignedPairs(p1, t1, k1, f1) == SignedPairs(p2, t2, k2, f2)
    ensures p1 == p2 && t1 == t2 && k1 == k2 && f1 == f2
  {
    var ps1 := SignedPairs(p1, t1, k1, f1);
    var ps2 := SignedPairs(p2, t2, k2, f2);
    assert ps1[0] == ps2[0] && ps1[1] == ps2[1] && ps1[2] == ps2[2] && ps1[3] == ps2[3];
    DropPrefix("api_key" + "=", Encode(k1), Encode(k2));
    DropPrefix("folder" + "=", Encode(f1), Encode(f2));
    DropPrefix("public_id" + "=", Encode(p1), Encode(p2));
    DropPrefix("timestamp" + "=", Encode(t1), Encode(t2));
    EncodeInjective(k1, k2);
    EncodeInjective(f1, f2);
    EncodeInjective(p1, p2);
    EncodeInjective(t1, t2);
  }

  /** Under one secret, equal strings to sign mean equal parameters. */
  lemma StringToSignInjective(p1: string, t1: string, k1: string, f1: string,
                              p2: string, t2: string, k2: string, f2: string, secret: string)
    ensures StringToSign(p1, t1, k1, f1, secret) == StringToSign(p2, t2, k2, f2, secret) ==>
      p1 == p2 && t1 == t2 && k1 == k2 && f1 == f2
  {
    var a := SortedParams(p1, t1, k1, f1);
    var b := SortedParams(p2, t2, k2, f2);
    if a + secret == b + secret {
      assert |a| == |b|;
      assert a == (a + secret)[..|a|] && b == (b + secret)[..|b|];
      SortedParamsInjective(p1, t1, k1, f1, p2, t2, k2, f2);
    }
  }

  /** `POST /signature` at time `now`: 401 from `protect`; 400 unless timestamp,
      public_id and folder are all truthy; otherwise the digest of the
      string to sign and the configured API key. */
  function Signature(users: map<Id, User>, header: Option<string>, now: nat, body: SignatureBody, config: CloudConfig)
    : (r: Result<SignatureReply>)
    ensures Protect(users, header, now).Err? ==> r == Err(Unauthorized)
    ensures Protect(users, header, now).Ok? && !(Given(body.timestamp) && Given(body.publicId) && Given(body.folder)) ==>
      r == Err(BadRequest)
    ensures r.Ok? <==> Protect(users, header, now).Ok? && Given(body.timestamp) && Given(body.publicId) && Given(body.folder)
    ensures r.Ok? ==>
      && Protect(users, header, now).Ok?
      && Given(body.timestamp) && Given(body.publicId) && Given(body.folder)
      && r.value.apiKey == config.apiKey
      && r.value.signature == Sha1(StringToSign(Render(body.publicId.value), Render(body.timestamp.value),
                                                config.apiKey, Render(body.folder.value), config.apiSecret))
  {
    match Protect(users, header, now)
    case Err(f) => Err(f)
    case Ok(_) =>
      if !(Given(body.timestamp) && Given(body.publicId) && Given(body.folder)) then Err(BadRequest)
      else
        var toSign := StringToSign(Render(body.publicId.value), Render(body.timestamp.value),
                                   config.apiKey, Render(body.folder.value), config.apiSecret);
        Ok(SignatureReply(Sha1(toSign), config.apiKey))
  }

  /** The string a successful request signs. */
  function BodyToSign(body: SignatureBody, config: CloudConfig): string
    requires body.timestamp.Some? && body.publicId.Some? && body.folder.Some?
  {
    StringToSign(Render(body.publicId.value), Render(body.timestamp.value),
                 config.apiKey, Render(body.folder.value), config.apiSecret)
  }

  /** Under one configuration, two successful requests that render the same
      parameters get the same reply, and the strings they sign are equal
      only when they render the same parameters. */
  lemma SignatureIdentifiesParameters(users: map<Id, User>, h1: Option<string>, h2: Option<string>, n1: nat, n2: nat,
                                      b1: SignatureBody, b2: SignatureBody, config: CloudConfig)
    ensures Signature(users, h1, n1, b1, config).Ok? && Signature(users, h2, n2, b2, config).Ok? ==>
      var same :=
        && Render(b1.timestamp.value) == Render(b2.timestamp.value)
        && Render(b1.publicId.value) == Render(b2.publicId.value)
        && Render(b1.folder.value) == Render(b2.folder.value);
      && (same ==> Signature(users, h1, n1, b1, config) == Signature(users, h2, n2, b2, config))
      && (BodyToSign(b1, config) == BodyToSign(b2, config) <==> same)
  {
    if Signature(users, h1, n1, b1, config).Ok? && Signature(users, h2, n2, b2, config).Ok?
       && BodyToSign(b1, config) == BodyToSign(b2, config) {
      StringToSignInjective(Render(b1.publicId.value), Render(b1.timestamp.value), config.apiKey, Render(b1.folder.value),
                            Render(b2.publicId.value), Render(b2.timestamp.value), config.apiKey, Render(b2.folder.value),
                            config.apiSecret);
    }
  }
}
