/**
 * Key import and assertion signature checking (`parseKey`, `verifyAuth`,
 * `simpleVerifyFromKey`). Hashing, key import and the signature primitives are
 * library calls; they are given as the fields of a `Crypto` value.
 */
module WebAuthnVerify {
  import opened Wrappers
  import opened Bytes
  import opened DerSignature

  /** A SHA-256 digest. */
  type Digest = d: seq<byte> | |d| == 32 witness Zeros(32)

  /** The algorithm a WebCrypto key was imported for. */
  datatype KeyAlgorithm = EcdsaP256 | RsaPkcs1v15

  /** A `CryptoKey`: its algorithm and the SPKI bytes it was imported from. */
  datatype CryptoKey = CryptoKey(algorithm: KeyAlgorithm, spki: seq<byte>)

  /**
   * The library primitives the code calls:
   * - `sha256`: `crypto.subtle.digest('SHA-256', ·)` and node's `createHash('sha256')`;
   * - `importsAsEcdsa` / `importsAsRsa`: whether `importKey('spki', ·, …)` succeeds
   *   with ECDSA P-256 / RSASSA-PKCS1-v1_5 parameters;
   * - `ecdsaVerify(spki, raw r‖s, message)`: `crypto.subtle.verify` with ECDSA P-256/SHA-256;
   * - `nodeVerify(key, signature, message)`: node's `createVerify('SHA256')…verify`.
   */
  datatype Crypto = Crypto(
    sha256: seq<byte> -> Digest,
    importsAsEcdsa: seq<byte> -> bool,
    importsAsRsa: seq<byte> -> bool,
    ecdsaVerify: (seq<byte>, seq<byte>, seq<byte>) -> bool,
    nodeVerify: (CryptoKey, seq<byte>, seq<byte>) -> bool)

  datatype VerifyError =
    | UnsupportedKey          // both imports in `parseKey` rejected the bytes
    | BadDerSignature(e: DerError)   // `parseDerSignature` threw
    | AlgorithmMismatch       // WebCrypto refuses ECDSA parameters for a non-ECDSA key

  /** `parseKey`: ECDSA P-256 first, RSASSA-PKCS1-v1_5 if that import throws. */
  function ParseKey(crypto: Crypto, spki: seq<byte>): (r: Result<CryptoKey, VerifyError>)
    ensures r.Ok? ==> r.value.spki == spki
    ensures r.Ok? <==> crypto.importsAsEcdsa(spki) || crypto.importsAsRsa(spki)
    ensures r.Ok? ==> (r.value.algorithm == EcdsaP256 <==> crypto.importsAsEcdsa(spki))
  {
    if crypto.importsAsEcdsa(spki) then Ok(CryptoKey(EcdsaP256, spki))
    else if crypto.importsAsRsa(spki) then Ok(CryptoKey(RsaPkcs1v15, spki))
    else Err(UnsupportedKey)
  }

  /** The signed bytes: `authenticatorData ‖ SHA-256(clientDataJSON)`. */
  function SignedMessage(crypto: Crypto, authenticatorData: seq<byte>, clientDataJson: seq<byte>): (m: seq<byte>)
    ensures |m| == |authenticatorData| + 32
    ensures m[..|authenticatorData|] == authenticatorData
    ensures m[|authenticatorData|..] == crypto.sha256(clientDataJson)
  {
    authenticatorData + crypto.sha256(clientDataJson)
  }

  /**
   * `verifyAuth`: the signature goes through `parseDerSignature` (which may throw)
   * and is checked with ECDSA P-256/SHA-256 whatever the key's algorithm; the
   * Web Cryptography API rejects a key whose algorithm differs from the one asked for.
   */
  function VerifyAuth(crypto: Crypto, key: CryptoKey, signature: seq<byte>,
                      authenticatorData: seq<byte>, clientDataJson: seq<byte>): (r: Result<bool, VerifyError>)
    ensures r.Ok? <==> key.algorithm == EcdsaP256 && DerToRaw(signature).Ok?
    ensures DerToRaw(signature).Err? ==> r == Err(BadDerSignature(DerToRaw(signature).error))
  {
    var data := SignedMessage(crypto, authenticatorData, clientDataJson);
    match DerToRaw(signature)
    case Err(e) => Err(BadDerSignature(e))
    case Ok(raw) =>
      if key.algorithm != EcdsaP256 then Err(AlgorithmMismatch)
      else Ok(crypto.ecdsaVerify(key.spki, raw, data))
  }

  /** `simpleVerifyFromKey`: the same message, the signature passed to node unchanged. */
  function SimpleVerifyFromKey(crypto: Crypto, key: CryptoKey, signature: seq<byte>,
                               authenticatorData: seq<byte>, clientDataJson: seq<byte>): (ok: bool)
    ensures ok == crypto.nodeVerify(key, signature, authenticatorData + crypto.sha256(clientDataJson))
  {
    crypto.nodeVerify(key, signature, SignedMessage(crypto, authenticatorData, clientDataJson))
  }

  // ---- properties ----

  /**
   * `verifyAuth` accepts exactly when the ECDSA P-256 verifier accepts the raw
   * form of the signature over `authenticatorData ‖ SHA-256(clientDataJSON)`;
   * a DER error surfaces before the key is looked at.
   */
  lemma VerifyAuthChecksRawSignatureOverMessage(crypto: Crypto, key: CryptoKey, signature: seq<byte>,
                                                 authenticatorData: seq<byte>, clientDataJson: seq<byte>)
    ensures var r := VerifyAuth(crypto, key, signature, authenticatorData, clientDataJson);
      && (DerToRaw(signature).Err? ==> r == Err(BadDerSignature(DerToRaw(signature).error)))
      && (r == Ok(true) <==>
            && key.algorithm == EcdsaP256
            && DerToRaw(signature).Ok?
            && crypto.ecdsaVerify(key.spki, DerToRaw(signature).value,
                                  authenticatorData + crypto.sha256(clientDataJson)))
  {
  }

  /**
   * The algorithm is fixed: a key that `parseKey` could only import as RSA never
   * verifies, whatever the signature.
   */
  lemma RsaKeyNeverVerifies(crypto: Crypto, spki: seq<byte>, signature: seq<byte>,
                            authenticatorData: seq<byte>, clientDataJson: seq<byte>)
    requires !crypto.importsAsEcdsa(spki) && crypto.importsAsRsa(spki)
    ensures ParseKey(crypto, spki).Ok?
    ensures VerifyAuth(crypto, ParseKey(crypto, spki).value, signature, authenticatorData, clientDataJson) != Ok(true)
  {
  }

  /**
   * What the node path, which no handler calls, would change. Say node's
   * verifier, given a DER signature, accepts exactly when the ECDSA primitive
   * accepts its decoded r ‖ s (what `IntendedDerToRaw` yields, by
   * `IntendedDerRoundTrip`). Then for an ECDSA key and the DER encoding of
   * minimal r and s whose r does not end in 0x02, `verifyAuth` and
   * `simpleVerifyFromKey` give the same verdict: the two paths differ only on
   * the signatures `parseDerSignature` misreads.
   */
  lemma VerifiersAgreeOnWellFormedDer(crypto: Crypto, key: CryptoKey, r: seq<byte>, s: seq<byte>,
                                      authenticatorData: seq<byte>, clientDataJson: seq<byte>)
    requires key.algorithm == EcdsaP256
    requires |r| > 0 && |s| > 0 && r[0] != 0 && s[0] != 0
    requires 6 + |r| + |s| < 0x80
    requires r[|r| - 1] != IntegerTag
    requires var m := SignedMessage(crypto, authenticatorData, clientDataJson);
      crypto.nodeVerify(key, DerSequence(DerIntegerContent(r), DerIntegerContent(s)), m)
        == crypto.ecdsaVerify(key.spki, r + s, m)
    ensures var signature := DerSequence(DerIntegerContent(r), DerIntegerContent(s));
      VerifyAuth(crypto, key, signature, authenticatorData, clientDataJson)
        == Ok(SimpleVerifyFromKey(crypto, key, signature, authenticatorData, clientDataJson))
  {
    DerRoundTrip(r, s);
  }
}
