/**
 * The bearer-token issuer `jws` (src/jws.ts): a compact JWS
 * `header "." payload "." signature` whose header carries the signer's
 * Ed25519 key as a JWK (RFC 8037 section 2, RFC 7515 section 4.1.3) and whose
 * payload names the key's `did:key` identifier.
 *
 * The signer, the clock and the key store are outside the model: the signer is
 * a pair of functions and the clock reading is a parameter in milliseconds.
 */
module Jws {
  import opened Wrappers
  import opened Utf8
  import opened JsObject
  import opened Json
  import Base58
  import Base64Url

  /**
   * What the token issuer asks of a `near-api-js` signer: the public key of an
   * identity and a signature over a message by that identity. `None` stands for
   * a rejected promise.
   */
  datatype Signer = Signer(
    getPublicKey: (Value, Value) -> Option<seq<byte>>,
    signMessage: (seq<byte>, Value, Value) -> Option<seq<byte>>)

  datatype JwsError = IdentityError | SigningError

  // ---- Options ------------------------------------------------------------

  function AccountId(opts: seq<Property>): Value
  {
    Get(opts, "accountId")
  }

  function NetworkId(opts: seq<Property>): Value
  {
    Get(opts, "networkId")
  }

  function Identity(): set<string>
  {
    {"accountId", "networkId"}
  }

  /** `const { accountId, networkId, ...extras } = opts`: every other own property. */
  function Extras(opts: seq<Property>): (r: seq<Property>)
    requires Distinct(opts)
    ensures Distinct(r)
    ensures KeySet(r) == KeySet(opts) - Identity()
    ensures forall k :: Get(r, k) == if k in Identity() then Undefined else Get(opts, k)
  {
    var r := Rest(opts, Identity());
    EnumerateGet(opts, "");
    MultisetKeySet(opts, Enumerate(opts));
    forall k ensures Get(r, k) == if k in Identity() then Undefined else Get(opts, k) {
      RestGet(opts, r, k);
    }
    r
  }

  lemma RestGet(opts: seq<Property>, r: seq<Property>, k: string)
    requires Distinct(opts) && Distinct(r)
    requires forall p :: p in r <==> p in opts && p.key !in Identity()
    ensures Get(r, k) == if k in Identity() then Undefined else Get(opts, k)
  {
    if k !in Identity() && k in KeySet(opts) {
      var p := Property(k, Get(opts, k));
      assert p in r;
      GetMember(r, p);
    }
  }

  // ---- Header -------------------------------------------------------------

  /** The public key, its base64url text `x`, as an RFC 8037 octet key pair for signing. */
  function Jwk(x: string): (r: seq<Property>)
    ensures Keys(r) == ["kty", "crv", "x", "use"]
  {
    [Property("kty", Str("OKP")), Property("crv", Str("Ed25519")), Property("x", Str(x)), Property("use", Str("sig"))]
  }

  /** The protected header: the algorithm, the token type and the signer's key (RFC 7515 section 4.1.3). */
  function Header(x: string): (r: seq<Property>)
    ensures Keys(r) == ["alg", "typ", "jwk"]
    ensures r[2].value == Obj(Jwk(x))
  {
    [Property("alg", Str("EdDSASha256")), Property("typ", Str("JWT")), Property("jwk", Obj(Jwk(x)))]
  }

  // ---- Time ---------------------------------------------------------------

  const TWO_TO_31: int := 0x8000_0000

  /** Division truncating toward zero, as `Math.trunc(a / b)` on exact quotients. */
  function TruncDiv(a: int, b: int): int
    requires b > 0
  {
    if a >= 0 then a / b else -((-a) / b)
  }

  /** ECMA-262 `ToInt32` on an integer: reduce modulo 2^32 into [-2^31, 2^31). */
  function ToInt32(x: int): (r: int)
    ensures -TWO_TO_31 <= r < TWO_TO_31
    ensures (r - x) % (2 * TWO_TO_31) == 0
    ensures -TWO_TO_31 <= x < TWO_TO_31 ==> r == x
  {
    var m := x % (2 * TWO_TO_31);
    assert -TWO_TO_31 <= x < TWO_TO_31 ==> (if x >= 0 then m == x else m == x + 2 * TWO_TO_31);
    if m >= TWO_TO_31 then m - 2 * TWO_TO_31 else m
  }

  /** `~~(Date.now() / 1000)` as written: seconds, then the 32-bit wrap of `~~`. */
  function NowSecondsAsWritten(ms: int): (now: int)
    ensures -TWO_TO_31 <= now < TWO_TO_31
    ensures (now - NowSeconds(ms)) % (2 * TWO_TO_31) == 0
  {
    ToInt32(TruncDiv(ms, 1000))
  }

  /** Whole seconds since the epoch for a clock reading in milliseconds, truncated toward zero. */
  function NowSeconds(ms: int): (now: int)
    ensures ms >= 0 ==> 0 <= now && now * 1000 <= ms < now * 1000 + 1000
    ensures ms < 0 ==> now <= 0 && now * 1000 - 1000 < ms <= now * 1000
  {
    TruncDiv(ms, 1000)
  }

  /** Until 2038-01-19T03:14:08Z the expression as written gives the intended seconds. */
  lemma NowSecondsAgree(ms: int)
    requires 0 <= ms < TWO_TO_31 * 1000
    ensures NowSecondsAsWritten(ms) == NowSeconds(ms)
  {
  }

  /** The first millisecond of 2038-01-19T03:14:08Z: `~~` wraps and the token is already expired. */
  lemma NowSecondsWraps()
    ensures NowSeconds(TWO_TO_31 * 1000) == TWO_TO_31
    ensures NowSecondsAsWritten(TWO_TO_31 * 1000) == -TWO_TO_31
    ensures NowSecondsAsWritten(TWO_TO_31 * 1000) + 600 < NowSeconds(TWO_TO_31 * 1000)
  {
  }

  const TEN_MINUTES: int := 60 * 10

  // ---- Decentralised identifier ---------------------------------------------

  /** The ed25519-pub multicodec prefix (varint 0xed) followed by the key. */
  function DidBytes(key: seq<byte>): (r: seq<byte>)
    ensures |r| == 2 + |key| && r[0] == 0xED && r[1] == 0x01 && r[2..] == key
  {
    [0xED, 0x01] + key
  }

  /** Builds the prefixed key in a fresh zero-filled buffer, as the issuer does. */
  method MulticodecBuffer(key: seq<byte>) returns (out: seq<byte>)
    ensures |out| == 2 + |key| && out[0] == 0xED && out[1] == 0x01 && out[2..] == key
    ensures out == DidBytes(key)
  {
    var buffer := new byte[2 + |key|](_ => 0);
    buffer[0] := 0xED;
    buffer[1] := 0x01;
    var i := 0;
    while i < |key|
      invariant 0 <= i <= |key|
      invariant buffer[0] == 0xED && buffer[1] == 0x01
      invariant forall j :: 0 <= j < i ==> buffer[2 + j] == key[j]
    {
      buffer[2 + i] := key[i];
      i := i + 1;
    }
    out := buffer[..];
    assert out[2..] == key by {
      assert forall j :: 0 <= j < |key| ==> out[2..][j] == buffer[2 + j];
    }
  }

  /** `did:key:` and the multibase base58btc (`z`) encoding of the prefixed key. */
  function DidKey(key: seq<byte>): (id: string)
    ensures |id| >= 9 && id[..9] == "did:key:z"
    ensures Base58.Decode(id[9..]) == Some(DidBytes(key))
  {
    var e := Base58.Encode(DidBytes(key));
    Base58.DecodeEncode(DidBytes(key));
    assert ("did:key:z" + e)[9..] == e;
    "did:key:z" + e
  }

  /** The identifier determines the key: different keys never share a `did:key`. */
  lemma DidKeyInjective(a: seq<byte>, b: seq<byte>)
    ensures DidKey(a) == DidKey(b) <==> a == b
  {
    if DidKey(a) == DidKey(b) {
      assert DidKey(a)[9..] == Base58.Encode(DidBytes(a));
      assert DidKey(b)[9..] == Base58.Encode(DidBytes(b));
      Base58.EncodeInjective(DidBytes(a), DidBytes(b));
      assert a == DidBytes(a)[2..];
    }
  }

  // ---- Payload ------------------------------------------------------------

  function DefaultKeys(): seq<string>
  {
    ["iss", "sub", "nbf", "iat", "exp"]
  }

  /** The claims the issuer sets before the extras: `iss`, `sub` and the three times. */
  function Defaults(iss: Value, sub: string, now: int): (r: seq<Property>)
    ensures Keys(r) == DefaultKeys()
  {
    [Property("iss", iss), Property("sub", Str(sub)), Property("nbf", Num(now)),
     Property("iat", Num(now)), Property("exp", Num(now + TEN_MINUTES))]
  }

  /** The defaults, with `iss` the account and `sub` the DID, then the extras spread over them. */
  function Payload(opts: seq<Property>, sub: string, now: int): (r: seq<Property>)
    requires Distinct(opts)
    ensures Distinct(r)
    ensures KeySet(r) == {"iss", "sub", "nbf", "iat", "exp"} + (KeySet(opts) - Identity())
  {
    DefaultsDistinct(AccountId(opts), sub, now);
    DefaultsKeySet(Defaults(AccountId(opts), sub, now));
    Spread(Defaults(AccountId(opts), sub, now), Extras(opts))
  }

  lemma DefaultKeysUnique()
    ensures Unique(DefaultKeys())
  {
  }

  lemma DefaultsDistinct(iss: Value, sub: string, now: int)
    ensures Distinct(Defaults(iss, sub, now))
    ensures forall k :: k in KeySet(Defaults(iss, sub, now)) <==> k in DefaultKeys()
  {
    DistinctKeys(Defaults(iss, sub, now));
    DefaultKeysUnique();
  }

  /**
   * Each claim of the payload: an option other than the identity overrides the
   * default of the same name (even when its value is `undefined`), and the
   * defaults hold otherwise.
   */
  lemma PayloadClaim(opts: seq<Property>, sub: string, now: int, k: string)
    requires Distinct(opts)
    ensures Distinct(Payload(opts, sub, now))
    ensures forall k :: k in KeySet(Payload(opts, sub, now)) <==>
      k in DefaultKeys() || (k in KeySet(opts) && k !in Identity())
    ensures Get(Payload(opts, sub, now), k) ==
      if k in KeySet(opts) && k !in Identity() then Get(opts, k)
      else Get(Defaults(AccountId(opts), sub, now), k)
  {
    DefaultsDistinct(AccountId(opts), sub, now);
    SpreadShape(Defaults(AccountId(opts), sub, now), Extras(opts), k);
  }

  /**
   * Insertion order of the payload: the five defaults in place, even when
   * overridden, then the extras' new keys in their enumeration order.
   */
  lemma PayloadOrder(opts: seq<Property>, sub: string, now: int)
    requires Distinct(opts)
    ensures Keys(Payload(opts, sub, now)) ==
      DefaultKeys() + Keys(Without(Enumerate(Extras(opts)), {"iss", "sub", "nbf", "iat", "exp"}))
  {
    var d := Defaults(AccountId(opts), sub, now);
    DefaultsDistinct(AccountId(opts), sub, now);
    DefaultsKeySet(d);
    SpreadShape(d, Extras(opts), "");
  }

  lemma DefaultsKeySet(d: seq<Property>)
    requires forall k :: k in KeySet(d) <==> k in DefaultKeys()
    ensures KeySet(d) == {"iss", "sub", "nbf", "iat", "exp"}
  {
    assert forall k :: k in DefaultKeys() <==> k in {"iss", "sub", "nbf", "iat", "exp"};
  }

  // ---- Assembly -----------------------------------------------------------

  /** `encodeURLSafe(encoder.encode(JSON.stringify(o)))`. */
  function EncodeSegment(o: seq<Property>, pad: bool): (r: string)
    ensures forall i :: 0 <= i < |r| ==> Base64Url.IsEncodingChar(r[i])
  {
    Base64Url.Encode(Utf8.Encode(Stringify(o)), pad)
  }

  /** The JWS signing input `encodedHeader "." encodedPayload`. */
  function SigningInput(header: seq<Property>, payload: seq<Property>, pad: bool): (r: string)
    ensures Split(r, '.') == [EncodeSegment(header, pad), EncodeSegment(payload, pad)]
  {
    var h, p := EncodeSegment(header, pad), EncodeSegment(payload, pad);
    JoinedSegments(h, p);
    h + "." + p
  }

  lemma JoinedSegments(h: string, p: string)
    requires forall i :: 0 <= i < |h| ==> Base64Url.IsEncodingChar(h[i])
    requires forall i :: 0 <= i < |p| ==> Base64Url.IsEncodingChar(p[i])
    ensures Split(h + "." + p, '.') == [h, p]
  {
    SplitNoSep(h, '.', p);
    SplitLast(p, '.');
  }

  /**
   * The token issued for options `opts` at clock reading `ms`: the key and the
   * signature are the signer's, both asked for with the same identity.
   */
  function Token(signer: Signer, opts: seq<Property>, ms: int, pad: bool): (r: Result<string, JwsError>)
    requires Distinct(opts)
    ensures signer.getPublicKey(AccountId(opts), NetworkId(opts)).None? <==> r == Failure(IdentityError)
    ensures var key := signer.getPublicKey(AccountId(opts), NetworkId(opts));
      key.Some? ==>
        var input := SigningInput(Header(Base64Url.Encode(key.value, pad)), Payload(opts, DidKey(key.value), NowSeconds(ms)), pad);
        var sig := signer.signMessage(Utf8.Encode(input), AccountId(opts), NetworkId(opts));
        && (r == Failure(SigningError) <==> sig.None?)
        && (sig.Some? ==> r == Success(input + "." + Base64Url.Encode(sig.value, pad)))
  {
    match signer.getPublicKey(AccountId(opts), NetworkId(opts))
    case None => Failure(IdentityError)
    case Some(key) =>
      var input := SigningInput(Header(Base64Url.Encode(key, pad)), Payload(opts, DidKey(key), NowSeconds(ms)), pad);
      match signer.signMessage(Utf8.Encode(input), AccountId(opts), NetworkId(opts))
      case None => Failure(SigningError)
      case Some(sig) => Success(input + "." + Base64Url.Encode(sig, pad))
  }

  /** The issuer itself: the DID buffer is built in place, the rest is composed. */
  method Issue(signer: Signer, opts: seq<Property>, ms: int, pad: bool) returns (r: Result<string, JwsError>)
    requires Distinct(opts)
    ensures r == Token(signer, opts, ms, pad)
  {
    var accountId := AccountId(opts);
    var networkId := NetworkId(opts);
    var extras := Extras(opts);
    var publicKey := signer.getPublicKey(accountId, networkId);
    if publicKey.None? {
      return Failure(IdentityError);
    }
    var key := publicKey.value;
    var header := Header(Base64Url.Encode(key, pad));
    var now := NowSeconds(ms);
    var buffer := MulticodecBuffer(key);
    var id := "z" + Base58.Encode(buffer);
    var payload := Spread(Defaults(accountId, "did:key:" + id, now), extras);
    IssuedPayload(opts, key, buffer, now);
    var encodedHeader := EncodeSegment(header, pad);
    var encodedPayload := EncodeSegment(payload, pad);
    var message := Utf8.Encode(encodedHeader + "." + encodedPayload);
    var signature := signer.signMessage(message, accountId, networkId);
    TokenOfParts(signer, opts, ms, pad, key, encodedHeader + "." + encodedPayload);
    if signature.None? {
      return Failure(SigningError);
    }
    r := Success(encodedHeader + "." + encodedPayload + "." + Base64Url.Encode(signature.value, pad));
  }

  /** Proof step of `Issue`: the payload built from the in-place buffer is `Payload`. */
  lemma IssuedPayload(opts: seq<Property>, key: seq<byte>, buffer: seq<byte>, now: int)
    requires Distinct(opts) && buffer == DidBytes(key)
    ensures Spread(Defaults(AccountId(opts), "did:key:" + ("z" + Base58.Encode(buffer)), now), Extras(opts))
      == Payload(opts, DidKey(key), now)
  {
    DidText(Base58.Encode(buffer));
  }

  /** `"did:key:" + did` with `did = "z" + base58`; kept apart, as the solver finds it costly inline. */
  lemma DidText(e: string)
    ensures "did:key:" + ("z" + e) == "did:key:z" + e
  {
    assert "did:key:" + "z" == "did:key:z";
  }

  /** Proof step of `Issue`: `Token` once the key and the signing input are known. */
  lemma TokenOfParts(signer: Signer, opts: seq<Property>, ms: int, pad: bool, key: seq<byte>, input: string)
    requires Distinct(opts) && signer.getPublicKey(AccountId(opts), NetworkId(opts)) == Some(key)
    requires input == SigningInput(Header(Base64Url.Encode(key, pad)), Payload(opts, DidKey(key), NowSeconds(ms)), pad)
    ensures Token(signer, opts, ms, pad) ==
      match signer.signMessage(Utf8.Encode(input), AccountId(opts), NetworkId(opts))
      case None => Failure(SigningError)
      case Some(sig) => Success(input + "." + Base64Url.Encode(sig, pad))
  {
  }

  // ---- What a relying party reads -------------------------------------------

  /** `s.split(sep)`. */
  function Split(s: string, sep: char): (parts: seq<string>)
    ensures |parts| > 0
  {
    if s == [] then [[]]
    else
      var tail := Split(s[1..], sep);
      if s[0] == sep then [[]] + tail else [[s[0]] + tail[0]] + tail[1..]
  }

  lemma {:induction false} SplitNoSep(a: string, sep: char, rest: string)
    requires forall i :: 0 <= i < |a| ==> a[i] != sep
    ensures Split(a + [sep] + rest, sep) == [a] + Split(rest, sep)
  {
    if a == [] {
      assert a + [sep] + rest == [sep] + rest;
      assert ([sep] + rest)[1..] == rest;
    } else {
      var s := a + [sep] + rest;
      assert s[1..] == a[1..] + [sep] + rest;
      SplitNoSep(a[1..], sep, rest);
      assert [a[0]] + a[1..] == a;
    }
  }

  lemma {:induction false} SplitLast(a: string, sep: char)
    requires forall i :: 0 <= i < |a| ==> a[i] != sep
    ensures Split(a, sep) == [a]
  {
    if a != [] {
      SplitLast(a[1..], sep);
      assert [a[0]] + a[1..] == a;
    }
  }

  /** Three segments free of dots split back into themselves. */
  lemma SplitThree(a: string, b: string, c: string)
    requires forall i :: 0 <= i < |a| ==> a[i] != '.'
    requires forall i :: 0 <= i < |b| ==> b[i] != '.'
    requires forall i :: 0 <= i < |c| ==> c[i] != '.'
    ensures Split(a + "." + b + "." + c, '.') == [a, b, c]
  {
    SplitLast(c, '.');
    SplitNoSep(b, '.', c);
    assert a + "." + b + "." + c == a + ['.'] + (b + ['.'] + c);
    SplitNoSep(a, '.', b + ['.'] + c);
  }

  /** `JSON.parse(decoder.decode(decodeURLSafe(segment)))`. */
  function ReadSegment(segment: string): Option<Json>
  {
    match Base64Url.Decode(segment)
    case None => None
    case Some(bytes) =>
      match Utf8.Decode(bytes)
      case None => None
      case Some(text) => Parse(text)
  }

  /** A segment reads back as the JSON of the object it encodes. */
  lemma ReadEncoded(o: seq<Property>, pad: bool)
    ensures ReadSegment(EncodeSegment(o, pad)) == ToJson(Obj(o))
  {
    Base64Url.DecodeEncode(Utf8.Encode(Stringify(o)), pad);
    Utf8.DecodeEncode(Stringify(o));
    ParseOfPrint(ToJson(Obj(o)).value);
  }

  lemma GetThree(a: Property, b: Property, c: Property, k: string)
    ensures Get([a, b, c], k) ==
      if k == a.key then a.value else if k == b.key then b.value else if k == c.key then c.value else Undefined
  {
    assert [a, b, c][1..] == [b, c];
    assert Get([b, c], k) == if k == b.key then b.value else Get([c], k) by {
      assert [b, c][1..] == [c];
    }
    assert Get([c], k) == if k == c.key then c.value else Undefined by {
      assert [c][1..] == [];
    }
  }

  lemma GetFour(a: Property, b: Property, c: Property, d: Property, k: string)
    ensures Get([a, b, c, d], k) ==
      if k == a.key then a.value else if k == b.key then b.value
      else if k == c.key then c.value else if k == d.key then d.value else Undefined
  {
    assert [a, b, c, d][1..] == [b, c, d];
    GetThree(b, c, d, k);
  }

  lemma JwkDistinct(x: string)
    ensures Distinct(Jwk(x))
  {
    DistinctKeys(Jwk(x));
    assert Keys(Jwk(x)) == ["kty", "crv", "x", "use"];
    assert Unique(["kty", "crv", "x", "use"]);
  }

  lemma HeaderDistinct(x: string)
    ensures Distinct(Header(x))
  {
    DistinctKeys(Header(x));
    assert Keys(Header(x)) == ["alg", "typ", "jwk"];
    assert Unique(["alg", "typ", "jwk"]);
  }

  /**
   * The JWK as a reader finds it: exactly the members `kty`, `crv`, `x` and
   * `use` with their values, and no other.
   */
  lemma JwkProp(x: string, k: string)
    ensures ToJson(Obj(Jwk(x))).Some?
    ensures Prop(ToJson(Obj(Jwk(x))).value, k) ==
      if k == "kty" then Some(JStr("OKP")) else if k == "crv" then Some(JStr("Ed25519"))
      else if k == "x" then Some(JStr(x)) else if k == "use" then Some(JStr("sig")) else None
  {
    var o := Jwk(x);
    JwkDistinct(x);
    PropOfObject(o, k);
    GetFour(o[0], o[1], o[2], o[3], k);
  }

  /** The header as a reader finds it: `alg`, `typ` and the JWK, and no other member. */
  lemma HeaderProp(x: string, k: string)
    ensures ToJson(Obj(Header(x))).Some?
    ensures Prop(ToJson(Obj(Header(x))).value, k) ==
      if k == "alg" then Some(JStr("EdDSASha256")) else if k == "typ" then Some(JStr("JWT"))
      else if k == "jwk" then ToJson(Obj(Jwk(x))) else None
  {
    var o := Header(x);
    HeaderDistinct(x);
    PropOfObject(o, k);
    GetThree(o[0], o[1], o[2], k);
  }

  /** A payload claim as a reader finds it: the JSON of the property, absent when `undefined`. */
  lemma PayloadJson(opts: seq<Property>, sub: string, now: int, k: string)
    requires Distinct(opts)
    ensures ToJson(Obj(Payload(opts, sub, now))).Some?
    ensures Prop(ToJson(Obj(Payload(opts, sub, now))).value, k) ==
      ToJson(if k in KeySet(opts) && k !in Identity() then Get(opts, k)
             else Get(Defaults(AccountId(opts), sub, now), k))
  {
    PayloadClaim(opts, sub, now, k);
    PropOfObject(Payload(opts, sub, now), k);
  }

  // ---- Properties of issued tokens ------------------------------------------

  lemma GetFive(a: Property, b: Property, c: Property, d: Property, e: Property, k: string)
    ensures Get([a, b, c, d, e], k) ==
      if k == a.key then a.value else if k == b.key then b.value else if k == c.key then c.value
      else if k == d.key then d.value else if k == e.key then e.value else Undefined
  {
    assert [a, b, c, d, e][1..] == [b, c, d, e];
    GetFour(b, c, d, e, k);
  }

  /** The default claims: issuer, subject, and the three times ten minutes apart. */
  lemma DefaultsGet(iss: Value, sub: string, now: int, k: string)
    ensures Get(Defaults(iss, sub, now), k) ==
      if k == "iss" then iss else if k == "sub" then Str(sub)
      else if k == "nbf" || k == "iat" then Num(now) else if k == "exp" then Num(now + 600)
      else Undefined
  {
    var d := Defaults(iss, sub, now);
    GetFive(d[0], d[1], d[2], d[3], d[4], k);
  }

  /** Without overrides the issuer is the account and the subject the DID. */
  lemma DefaultIdentityClaims(opts: seq<Property>, sub: string, now: int)
    requires Distinct(opts) && "iss" !in KeySet(opts) && "sub" !in KeySet(opts)
    ensures ToJson(Obj(Payload(opts, sub, now))).Some?
    ensures Prop(ToJson(Obj(Payload(opts, sub, now))).value, "iss") == ToJson(AccountId(opts))
    ensures Prop(ToJson(Obj(Payload(opts, sub, now))).value, "sub") == Some(JStr(sub))
  {
    var iss := AccountId(opts);
    assert Prop(ToJson(Obj(Payload(opts, sub, now))).value, "iss") == ToJson(iss) by {
      PayloadJson(opts, sub, now, "iss");
      DefaultsGet(iss, sub, now, "iss");
    }
    PayloadJson(opts, sub, now, "sub");
    DefaultsGet(iss, sub, now, "sub");
  }

  /** Without overrides the token is valid from `now` and expires ten minutes later. */
  lemma DefaultTimeClaims(opts: seq<Property>, sub: string, now: int)
    requires Distinct(opts) && "nbf" !in KeySet(opts) && "iat" !in KeySet(opts) && "exp" !in KeySet(opts)
    ensures ToJson(Obj(Payload(opts, sub, now))).Some?
    ensures Prop(ToJson(Obj(Payload(opts, sub, now))).value, "nbf") == Some(JNum(now))
    ensures Prop(ToJson(Obj(Payload(opts, sub, now))).value, "iat") == Some(JNum(now))
    ensures Prop(ToJson(Obj(Payload(opts, sub, now))).value, "exp") == Some(JNum(now + 600))
  {
    var iss := AccountId(opts);
    assert Prop(ToJson(Obj(Payload(opts, sub, now))).value, "nbf") == Some(JNum(now)) by {
      PayloadJson(opts, sub, now, "nbf");
      DefaultsGet(iss, sub, now, "nbf");
    }
    assert Prop(ToJson(Obj(Payload(opts, sub, now))).value, "iat") == Some(JNum(now)) by {
      PayloadJson(opts, sub, now, "iat");
      DefaultsGet(iss, sub, now, "iat");
    }
    PayloadJson(opts, sub, now, "exp");
    DefaultsGet(iss, sub, now, "exp");
  }

  /** An option other than the identity lands in the payload unchanged, `exp` in the past included. */
  lemma OverrideClaim(opts: seq<Property>, sub: string, now: int, k: string)
    requires Distinct(opts) && k in KeySet(opts) && k !in Identity()
    ensures ToJson(Obj(Payload(opts, sub, now))).Some?
    ensures Prop(ToJson(Obj(Payload(opts, sub, now))).value, k) == ToJson(Get(opts, k))
  {
    PayloadJson(opts, sub, now, k);
  }

  /** Neither `accountId` nor `networkId` is a claim of its own. */
  lemma NoIdentityClaims(opts: seq<Property>, sub: string, now: int)
    requires Distinct(opts)
    ensures ToJson(Obj(Payload(opts, sub, now))).Some?
    ensures Prop(ToJson(Obj(Payload(opts, sub, now))).value, "accountId").None?
    ensures Prop(ToJson(Obj(Payload(opts, sub, now))).value, "networkId").None?
  {
    var iss := AccountId(opts);
    assert Prop(ToJson(Obj(Payload(opts, sub, now))).value, "accountId").None? by {
      PayloadJson(opts, sub, now, "accountId");
      DefaultsGet(iss, sub, now, "accountId");
    }
    assert Prop(ToJson(Obj(Payload(opts, sub, now))).value, "networkId").None? by {
      PayloadJson(opts, sub, now, "networkId");
      DefaultsGet(iss, sub, now, "networkId");
    }
  }

  /** Two base64url texts joined by a dot are ASCII. */
  lemma DottedAscii(h: string, p: string)
    requires forall i :: 0 <= i < |h| ==> Base64Url.IsEncodingChar(h[i])
    requires forall i :: 0 <= i < |p| ==> Base64Url.IsEncodingChar(p[i])
    ensures forall i :: 0 <= i < |h + "." + p| ==> IsAscii((h + "." + p)[i])
  {
    var s := h + "." + p;
    forall i | 0 <= i < |s| ensures IsAscii(s[i]) {
      if i < |h| { assert s[i] == h[i]; }
      else if i > |h| { assert s[i] == p[i - |h| - 1]; }
    }
  }

  /** What is signed is the signing input's bytes, one byte per character. */
  lemma MessageBytes(header: seq<Property>, payload: seq<Property>, pad: bool)
    ensures |Utf8.Encode(SigningInput(header, payload, pad))| == |SigningInput(header, payload, pad)|
    ensures forall i :: 0 <= i < |SigningInput(header, payload, pad)| ==>
      Utf8.Encode(SigningInput(header, payload, pad))[i] == SigningInput(header, payload, pad)[i] as int
  {
    DottedAscii(EncodeSegment(header, pad), EncodeSegment(payload, pad));
    EncodeAscii(SigningInput(header, payload, pad));
  }

  /**
   * An issued token is three dot-separated segments: the header, the payload
   * and the signature the signer gave over the signing input's bytes for the
   * very identity the key was asked for.
   */
  lemma TokenSegments(signer: Signer, opts: seq<Property>, ms: int, pad: bool)
    requires Distinct(opts) && Token(signer, opts, ms, pad).Success?
    ensures var key := signer.getPublicKey(AccountId(opts), NetworkId(opts)).value;
      var header := Header(Base64Url.Encode(key, pad));
      var payload := Payload(opts, DidKey(key), NowSeconds(ms));
      var sig := signer.signMessage(Utf8.Encode(SigningInput(header, payload, pad)), AccountId(opts), NetworkId(opts));
      && sig.Some?
      && Split(Token(signer, opts, ms, pad).value, '.') ==
         [EncodeSegment(header, pad), EncodeSegment(payload, pad), Base64Url.Encode(sig.value, pad)]
  {
    var key := signer.getPublicKey(AccountId(opts), NetworkId(opts)).value;
    var header := Header(Base64Url.Encode(key, pad));
    var payload := Payload(opts, DidKey(key), NowSeconds(ms));
    var sig := signer.signMessage(Utf8.Encode(SigningInput(header, payload, pad)), AccountId(opts), NetworkId(opts)).value;
    Dotted(EncodeSegment(header, pad), EncodeSegment(payload, pad), Base64Url.Encode(sig, pad));
  }

  lemma Dotted(h: string, p: string, e: string)
    requires forall i :: 0 <= i < |h| ==> Base64Url.IsEncodingChar(h[i])
    requires forall i :: 0 <= i < |p| ==> Base64Url.IsEncodingChar(p[i])
    requires forall i :: 0 <= i < |e| ==> Base64Url.IsEncodingChar(e[i])
    ensures Split(h + "." + p + "." + e, '.') == [h, p, e]
  {
    SplitThree(h, p, e);
  }

  /** Reading an issued token: header and payload as issued, and the signature's bytes. */
  lemma ReadToken(signer: Signer, opts: seq<Property>, ms: int, pad: bool)
    requires Distinct(opts) && Token(signer, opts, ms, pad).Success?
    ensures var parts := Split(Token(signer, opts, ms, pad).value, '.');
      var key := signer.getPublicKey(AccountId(opts), NetworkId(opts)).value;
      var header := Header(Base64Url.Encode(key, pad));
      var payload := Payload(opts, DidKey(key), NowSeconds(ms));
      && |parts| == 3
      && ReadSegment(parts[0]) == ToJson(Obj(header))
      && ReadSegment(parts[1]) == ToJson(Obj(payload))
      && Base64Url.Decode(parts[2]) == signer.signMessage(Utf8.Encode(SigningInput(header, payload, pad)), AccountId(opts), NetworkId(opts))
  {
    var key := signer.getPublicKey(AccountId(opts), NetworkId(opts)).value;
    var header := Header(Base64Url.Encode(key, pad));
    var payload := Payload(opts, DidKey(key), NowSeconds(ms));
    var sig := signer.signMessage(Utf8.Encode(SigningInput(header, payload, pad)), AccountId(opts), NetworkId(opts)).value;
    var parts := Split(Token(signer, opts, ms, pad).value, '.');
    TokenSegments(signer, opts, ms, pad);
    assert parts == [EncodeSegment(header, pad), EncodeSegment(payload, pad), Base64Url.Encode(sig, pad)];
    ReadThree(parts, header, payload, sig, pad);
  }

  lemma ReadThree(parts: seq<string>, header: seq<Property>, payload: seq<Property>, sig: seq<byte>, pad: bool)
    requires parts == [EncodeSegment(header, pad), EncodeSegment(payload, pad), Base64Url.Encode(sig, pad)]
    ensures |parts| == 3
    ensures ReadSegment(parts[0]) == ToJson(Obj(header))
    ensures ReadSegment(parts[1]) == ToJson(Obj(payload))
    ensures Base64Url.Decode(parts[2]) == Some(sig)
  {
    ReadEncoded(header, pad);
    ReadEncoded(payload, pad);
    Base64Url.DecodeEncode(sig, pad);
  }
}
