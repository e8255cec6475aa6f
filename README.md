# near-storage-js: the bearer-token issuer and broker selection, in Dafny

This project models two parts of the `near-storage-js` client for the Filecoin storage
bridge on NEAR.

**The token issuer `jws` (src/jws.ts).** It builds a compact JWS
`header "." payload "." signature`.
- The header has `alg`, `typ` and the signer's Ed25519 public key as a JWK.
- The payload has `iss` (the account), `sub` (the key's `did:key` identifier),
  `nbf`, `iat` and `exp` (ten minutes later). Every other option the caller passes
  is spread over these defaults.
- The header and payload are serialised with `JSON.stringify`, UTF-8 encoded and
  base64url encoded. Their dotted concatenation is signed by the signer under the
  same identity that gave the key.

**Session set-up `init` (src/storage.ts).**
- A broker is taken from the options. Otherwise the bridge contract lists its
  brokers, and the loop settles on the broker holding a deposit of the account.
- The storage half (`initStorage`) checks that broker information is present and
  picks its URL.
- The deposit half (`initDeposit`) guards and defaults the account id of
  `addDeposit` and `hasDeposit`, and the broker id of `getBroker`.

## Modules

| file | module | flavour |
|---|---|---|
| wrappers.dfy | `Wrappers` | `Option` and `Result` |
| utf8.dfy | `Utf8` | `TextEncoder.encode` as UTF-8 (RFC 3629), with a strict decoder as its partner |
| positional.dfy | `Positional` | big-endian digits in any base, shared by the base58 and decimal code |
| base58.dfy | `Base58` | base58btc as `bs58.encode`, with its decoder |
| base64url.dfy | `Base64Url` | section 5 of RFC 4648 as `encodeURLSafe`, padding as a parameter, with a decoder |
| jsobject.dfy | `JsObject` | JS objects: property read and write, spread, rest destructuring, enumeration order |
| json.dfy | `Json` | `JSON.stringify` on such objects, and a parser proved to read its output back |
| jws.dfy | `Jws` | the issuer: pure functions, plus the in-place DID buffer as a method over an `array` |
| storage.dfy | `Storage` | `init`'s broker loop as a method, the guards as functions |

How things are represented:
- A JS object is its properties in insertion order. Option objects always have
  distinct keys (`Distinct`), as every JS object does.
- The signer is a pair of functions returning `Option`: `None` is a rejected
  promise.
- The clock reading `Date.now()` is a parameter `ms`.
- The bridge contract's `listBrokers` result is a sequence, and its `hasDeposit`
  view is a predicate on (brokerId, accountId).
- Contract calls that change something (`addDeposit`) are modelled by the
  arguments they are made with.
- `@stablelib/base64` does not say here whether it pads, so `pad: bool` is a
  parameter. Every lemma holds for both values.

Comment against code:
- In the broker loop (src/storage.ts:175) the comment says the first broker with a
  deposit is chosen. The loop keeps overwriting `brokerInfo`, so the LAST such
  broker wins. The model follows the code; `Storage.LaterDepositWins` is the
  two-broker instance.
- The comment on `GAS` says `3e13`, but the string `"300000000000000"` is 3e14
  (300 TGas). The model uses the string.

## Model

| member | source | states |
|---|---|---|
| Jws.Extras | src/jws.ts:30 | the rest object holds every option except `accountId` and `networkId`, with the same values, and its keys are distinct |
| Jws.ToInt32 | src/jws.ts:42 | the `~~` result lies in the signed 32-bit range, equals its argument modulo 2^32, and is the argument itself when that is in range |
| Jws.NowSeconds | src/jws.ts:42 | `now` is the truncation of ms/1000 toward zero, for both signs |
| Jws.NowSecondsAsWritten | src/jws.ts:42 | the expression as written lies in the signed 32-bit range and agrees with `NowSeconds` modulo 2^32; `NowSecondsAgree` and `NowSecondsWraps` say where the two part |
| Jws.NowSecondsAgree | src/jws.ts:42 | for clock readings from 1970 up to 2038-01-19 the expression as written agrees with truncation |
| Jws.NowSecondsWraps | src/jws.ts:42-43 | at 2^31 seconds the expression as written gives -2^31, so its `exp` falls before the true time |
| Jws.DidBytes | src/jws.ts:45-48 | the multicodec buffer has length 2 + key length, starts with 0xED 0x01 and continues with the key |
| Jws.MulticodecBuffer | src/jws.ts:45-48 | allocating the buffer and writing the prefix and the key in place yields exactly `DidBytes(key)` |
| Jws.DidKey | src/jws.ts:49-53 | the identifier starts with `did:key:z`, and the rest base58-decodes to 0xED 0x01 followed by the key |
| Jws.DidKeyInjective | src/jws.ts:50-53 | `sub` = `"did:key:z" + base58(0xED 0x01 key)` determines the key: equal identifiers if and only if equal keys |
| Jws.Payload | src/jws.ts:51-58 | the payload has distinct keys: the five defaults and every option other than `accountId` and `networkId`; `PayloadClaim` gives the values and `PayloadOrder` the order |
| Jws.Defaults | src/jws.ts:51-56 | the default claims are exactly `iss, sub, nbf, iat, exp`, in that order |
| Jws.DefaultsGet | src/jws.ts:52-56 | `iss` is the account, `sub` the DID, `nbf` and `iat` are `now`, `exp` is `now + 600`, and nothing else is set |
| Jws.PayloadClaim | src/jws.ts:51-58 | the payload's keys are the defaults plus every option other than the identity; an option's value replaces the default |
| Jws.PayloadOrder | src/jws.ts:51-58 | the five default keys keep their places even when overridden, and new keys follow in the extras' enumeration order |
| Jws.PayloadJson | src/jws.ts:51-61 | each member of the serialised payload is the option's value if given, otherwise the default, and is absent when `undefined` |
| Jws.DefaultIdentityClaims | src/tests/jws.test.ts:58-59 | unless overridden, the payload read back has `iss` = accountId and `sub` = the DID |
| Jws.DefaultTimeClaims | src/tests/jws.test.ts:61-62 | unless overridden, `nbf` = `iat` = `now` and `exp` = `now + 600`, so `exp > iat` |
| Jws.OverrideClaim | src/tests/jws.test.ts:65-76 | an option such as `exp` (a past date, say) appears in the payload unchanged |
| Jws.NoIdentityClaims | src/jws.ts:30 | neither `accountId` nor `networkId` is a claim of its own |
| Jws.Jwk | src/jws.ts:33-38 | the JWK's members are `kty`, `crv`, `x` and `use`, in that order; `JwkProp` gives their values |
| Jws.Header | src/jws.ts:39-40 | the header's members are `alg`, `typ` and `jwk`, in that order, and `jwk` holds the JWK; `HeaderProp` gives their values |
| Jws.JwkProp | src/jws.ts:33-38 | the JWK read back has `kty` OKP, `crv` Ed25519, `x` the base64url key, `use` sig, and nothing else |
| Jws.HeaderProp | src/jws.ts:39-40 | the header read back has `alg` EdDSASha256, `typ` JWT, `jwk` as above, and nothing else, whatever the options and the time |
| Jws.EncodeSegment | src/jws.ts:60-61 | a segment uses only the URL-safe alphabet (and `=`), so it holds no `.` |
| Jws.ReadEncoded | src/jws.ts:60-61 | base64url-decoding, UTF-8-decoding and parsing a segment gives back the JSON value of the object |
| Jws.SigningInput | src/jws.ts:60-62 | split at dots, the signing input is exactly the encoded header followed by the encoded payload |
| Jws.MessageBytes | src/jws.ts:62 | the signed message is one byte per character of `encodedHeader "." encodedPayload`, each byte that character's code |
| Jws.Token | src/jws.ts:26-67 | fails with `IdentityError` exactly when the signer has no key for the identity taken from the options; given a key, fails with `SigningError` exactly when the signer refuses to sign the UTF-8 signing input under that same identity; otherwise the token is the signing input, a dot and the base64url signature |
| Jws.Issue | src/jws.ts:26-67 | the issuer computes `Token` step by step, and builds the DID buffer in place |
| Jws.TokenSegments | src/jws.ts:60-65 | split at dots, a token has exactly three parts: the encoded header, the encoded payload and the encoded signature |
| Jws.ReadToken | src/tests/jws.test.ts:41-57 | the first two parts read back as the header and the payload, and the third decodes to the signer's signature |
| Jws.ReadThree | src/tests/jws.test.ts:41-42 | the three encoded parts read back as the header object, the payload object and the signature bytes |
| Jws.SplitThree | src/tests/jws.test.ts:41 | `split(".")` of three dot-free strings joined by dots gives those strings |
| Storage.BrokerUrl | src/storage.ts:20 | the URL is the first address when there is one (even an empty one), otherwise `REMOTE_URL` |
| Storage.InitStorage | src/storage.ts:13-20 | fails with "Must provide broker information" exactly when no broker is given; otherwise the session keeps broker, URL and identity |
| Storage.AuthOptions | src/storage.ts:49-53 | the issuer options have distinct keys; `AuthOptionsGet` gives their values |
| Storage.AuthOptionsGet | src/storage.ts:49-53 | the issuer options carry the session's accountId, networkId and the broker id as `aud` |
| Storage.AuthClaims | src/storage.ts:49-53 | the request token's payload has `aud` the broker id and `iss` the account, and does not list the identity |
| Storage.Authorization | src/storage.ts:49-58 | succeeds exactly when the issuer gives a token for the session's options, and the value is then `"Bearer "` followed by that token; otherwise it is the issuer's own error, `IdentityError` when the signer has no key |
| Storage.GetBroker | src/storage.ts:119-121 | `getBroker` looks up the given id, or the session's broker when none is given |
| Storage.AddDeposit | src/storage.ts:122-129 | the id defaults to the session account; an empty id is rejected with `invalid account id: ""`; otherwise the deposit names the broker, the id, `GAS` and `DEPOSIT` |
| Storage.HasDeposit | src/storage.ts:135-138 | rejected exactly when the session account id is empty; otherwise asks with the session's broker and account |
| Storage.ContractId | src/storage.ts:167 | a missing or empty contract id falls back to `CONTRACT_ID` |
| Storage.LastDeposit | src/storage.ts:174-184 | the index found holds a deposit and no later broker does; none is found only when no broker holds one |
| Storage.SelectBroker | src/storage.ts:174-187 | the broker is listed; it is the last one with an empty account id or without any deposit, and otherwise one with a deposit after which no broker has one |
| Storage.LaterDepositWins | src/storage.ts:175-183 | with two brokers both holding deposits, the second is chosen |
| Storage.Assemble | src/storage.ts:189-193 | the session's deposit half and storage half name the same broker, the storage half is `initStorage`'s, and the contract id is `ContractId` |
| Storage.Init | src/storage.ts:159-194 | a given broker is used unchanged; an empty listing fails with "no registered brokers"; otherwise the loop's choice is `SelectBroker` |
| Utf8.DecodeEncode | src/jws.ts:60-62 | UTF-8 decoding inverts `TextEncoder.encode` on every string |
| Utf8.EncodeAscii | src/jws.ts:62 | an ASCII string encodes to one byte per character, equal to its code |
| Utf8.Encode | src/jws.ts:60-62 | one to four bytes per character; `DecodeEncode` and `EncodeAscii` carry its meaning |
| Base58.DecodeEncode | src/jws.ts:50 | decoding inverts `bs58.encode` on every byte sequence, leading zero bytes included |
| Base58.EncodeInjective | src/jws.ts:50 | distinct byte sequences never share a base58btc encoding |
| Base58.Encode | src/jws.ts:50 | every character is a base58btc digit, and each leading zero byte gives a leading `1`; `DecodeEncode` carries its meaning |
| Base64Url.Encode | src/jws.ts:36 | every output character is in the URL-safe alphabet or is `=` |
| Base64Url.EncodeLength | src/jws.ts:36 | four characters per three bytes, padded or not |
| Base64Url.DecodeEncode | src/jws.ts:60-64 | decoding inverts `encodeURLSafe`, padded or not |
| Base64Url.EncodeInjective | src/jws.ts:36 | distinct byte sequences never share an encoding, so `x` determines the key |
| JsObject.SpreadShape | src/jws.ts:51-58 | `{...t, ...s}` has distinct keys, the union of both key sets, `t`'s keys in place then `s`'s new keys in enumeration order, and `s`'s value wherever `s` has the key |
| JsObject.Spread | src/jws.ts:51-58 | for objects with distinct keys, `{...t, ...s}` has distinct keys and the union of both key sets; `SpreadShape` gives the order and the values |
| JsObject.Rest | src/jws.ts:30 | rest destructuring keeps exactly the properties whose key is not excluded |
| JsObject.Enumerate | src/jws.ts:57 | enumeration is a permutation: array-index keys first in ascending order, then the other keys in insertion order |
| JsObject.EnumerateGet | src/jws.ts:57 | enumeration keeps distinctness, the key set and every value |
| JsObject.SetAllGet | src/jws.ts:57 | defining properties one by one keeps keys distinct, gives the union of both key sets, the written value for every key written, and the earlier value for the others |
| Json.ToJson | src/jws.ts:60-61 | `JSON.stringify` writes nothing exactly for `undefined` |
| Json.Stringify | src/jws.ts:60-61 | parsing the text gives back the JSON value of the object |
| Json.PropOfObject | src/jws.ts:60-61 | each member of a serialised object is the serialisation of that property's value |
| Json.ParseEscape | src/jws.ts:60-61 | a string literal escaped as `QuoteJSONString` does is read back exactly |
| Json.ParseOfPrint | src/jws.ts:60-61 | parsing the printed text of a JSON value gives the value back |

## Left out

- The HTTP side of `store` and `status` is not modelled: `fetch`, the endpoint paths
  `/upload` and `/storagerequest/{id}`, the responses and the FormData built from a
  file (src/storage.ts:34-86). These are network I/O and host objects. Only the
  `Authorization` header value is modelled.
- The NEAR SDK is not modelled: building the `Contract` (src/storage.ts:144-153),
  wallet sign-in, and the signer's key store and Ed25519 signing. The signer is a
  pair of given functions.
- `listBrokers` and `releaseDeposits` of the deposit half (src/storage.ts:116-118,
  130-134) forward to the contract and leave nothing to state. What `getBroker`
  and `hasDeposit` return is the contract's answer; only their arguments are
  modelled.
- Storage.Init: a rejection from `listBrokers` or `hasDeposit` is not modelled. Both
  are total here, given as a sequence and a predicate.
- `isFormData`, src/model.ts, src/tests/account.ts, src/contract.ts and src/signin.ts
  are not part of this model.
- Jws.Token: `now` is the corrected `NowSeconds`, truncation without the 32-bit wrap of `~~`.
  The expression as written is `NowSecondsAsWritten` (see Findings); the two agree until 2038-01-19.
- Jws.Issue: computes `Token`, so it uses the corrected `NowSeconds` too.
- Jws.NowSeconds: `Date.now() / 1000` is a floating-point division, and the model
  takes it as exact. The two agree for readings below about 4.5e15 ms.
- Extra claim values are strings, integers, objects or `undefined`. Fractional
  numbers, `NaN` and `Infinity` are not modelled, and neither is the exponent
  notation `JSON.stringify` uses from 1e21 up.
- Strings are sequences of Unicode scalar values. Lone UTF-16 surrogates are not
  modelled, and neither is the replacement character a `TextDecoder` would put in
  their place.
- Base64Url.Encode and Base58.Encode follow the published encodings, not the code of
  `@stablelib/base64` and `bs58`, which is not part of this model. Whether
  `encodeURLSafe` pads is the parameter `pad`; the decoder accepts both forms.
- Jws.HeaderProp and Jws.JwkProp state the header member by member, as
  `toHaveProperty` compares. They do not give the exact order of the header text.

## Findings

| source | as written | input that shows it | evidently intended | confidence | as-written member | corrected member |
|---|---|---|---|---|---|---|
| src/jws.ts:42 | `~~(Date.now() / 1000)` truncates through ToInt32, so it wraps to negative from 2^31 seconds on | `Date.now()` = 2147483648000 (2038-01-19T03:14:08Z) gives `now` = -2147483648, so `exp` = `now + 600` lies in 1901 | truncation of the seconds without wrapping (`Math.trunc`): `now` = 2147483648 | not executed | Jws.NowSecondsAsWritten, shown by Jws.NowSecondsWraps | Jws.NowSeconds, which `Jws.Token` uses, with Jws.NowSecondsAgree |
