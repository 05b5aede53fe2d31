/**
 * `parseAuthData`: the fixed-offset reading of WebAuthn authenticator data
 * (section 6.1 "Authenticator Data" and section 6.5.1 "Attested Credential Data"
 * of W3C Web Authentication Level 2), as the code performs it.
 *
 * The input is the whole underlying `ArrayBuffer` (callers pass a fresh
 * `Uint8Array`, so its byte offset is 0). Every typed-array or `DataView`
 * window that reaches past the end of the buffer throws a `RangeError`.
 */
module AuthData {
  import opened Wrappers
  import opened Bytes
  import Base64

  datatype ParseError = RangeError

  datatype AuthenticatorData = AuthenticatorData(
    userPresent: bool,
    userVerified: bool,
    backupEligible: bool,
    backupState: bool,
    atPresent: bool,
    edPresent: bool,
    signCount: nat,
    aaguid: seq<byte>,
    credentialId: seq<byte>,
    credentialIdB64: string)

  /** Offsets of the layout. */
  const FlagsOffset := 32
  const CounterOffset := 33
  const AaguidOffset := 37
  const LengthOffset := 53
  const CredentialIdOffset := 55

  /** Whether the window `[offset, offset + len)` fits the buffer. */
  predicate Fits(b: seq<byte>, offset: nat, len: nat) {
    offset + len <= |b|
  }

  /** The credential id length field `L`, read only once the buffer holds it. */
  function CredentialIdLength(b: seq<byte>): nat
    requires |b| >= CredentialIdOffset
  {
    U16(b[LengthOffset], b[LengthOffset + 1])
  }

  function ParseAuthData(b: seq<byte>): (r: Result<AuthenticatorData, ParseError>)
    ensures r.Ok? <==> |b| >= CredentialIdOffset && CredentialIdOffset + CredentialIdLength(b) <= |b|
  {
    // rpIdHash: a 32-byte view at offset 0
    if !Fits(b, 0, 32) then Err(RangeError)
    else
      // `authData[32]` is `undefined` past the end, and `undefined >> k & 1` is 0
      var flags: byte := if |b| > FlagsOffset then b[FlagsOffset] else 0;
      // signCount: the view at 33 is made, but the DataView is built over its
      // whole `.buffer` and reads from offset 0 of it
      if !Fits(b, CounterOffset, 4) then Err(RangeError)
      else
        var signCount := U32(b[0], b[1], b[2], b[3]);
        if !Fits(b, AaguidOffset, 16) then Err(RangeError)
        else
          var aaguid := b[AaguidOffset..AaguidOffset + 16];
          if !Fits(b, LengthOffset, 2) then Err(RangeError)
          else
            var len := U16(b[LengthOffset], b[LengthOffset + 1]);
            if !Fits(b, CredentialIdOffset, len) then Err(RangeError)
            else
              var credentialId := b[CredentialIdOffset..CredentialIdOffset + len];
              Ok(AuthenticatorData(
                userPresent := Bit(flags, 0),
                userVerified := Bit(flags, 2),
                backupEligible := Bit(flags, 3),
                backupState := Bit(flags, 4),
                atPresent := Bit(flags, 6),
                edPresent := Bit(flags, 7),
                signCount := signCount,
                aaguid := aaguid,
                credentialId := credentialId,
                credentialIdB64 := Base64.Encode(credentialId)))
  }

  // ---- properties of the layout ----

  /**
   * Where each field comes from: the AAGUID is bytes 37..52, the credential id is
   * exactly the `L` bytes from 55 (never fewer), and its text form is the base64
   * that `atou8` turns back into it.
   */
  lemma ParsedFieldsLayout(b: seq<byte>)
    requires ParseAuthData(b).Ok?
    ensures var d := ParseAuthData(b).value; var len := b[53] as int * 256 + b[54] as int;
      && d.aaguid == b[37..53] && |d.aaguid| == 16
      && d.credentialId == b[55..55 + len] && |d.credentialId| == len
      && Base64.IsBase64(d.credentialIdB64) && Base64.Decode(d.credentialIdB64) == d.credentialId
  {
    Base64.DecodeEncode(ParseAuthData(b).value.credentialId);
  }

  /** The six flags are bits 0, 2, 3, 4, 6 and 7 of byte 32. */
  lemma ParsedFlags(b: seq<byte>)
    requires ParseAuthData(b).Ok?
    ensures var d := ParseAuthData(b).value; var f := b[32];
      && d.userPresent == (f % 2 == 1)
      && d.userVerified == ((f / 4) % 2 == 1)
      && d.backupEligible == ((f / 8) % 2 == 1)
      && d.backupState == ((f / 16) % 2 == 1)
      && d.atPresent == ((f / 64) % 2 == 1)
      && d.edPresent == (f / 128 == 1)
  {
    var d := ParseAuthData(b).value;
    assert d.userPresent == Bit(b[32], 0) && d.userVerified == Bit(b[32], 2);
    assert d.backupEligible == Bit(b[32], 3) && d.backupState == Bit(b[32], 4);
    assert d.atPresent == Bit(b[32], 6) && d.edPresent == Bit(b[32], 7);
    FlagBits(b[32]);
  }

  /** Two buffers that differ at most in the flags byte, and there only outside `bits`. */
  predicate SameExceptFlagBits(b: seq<byte>, c: seq<byte>, bits: set<nat>)
  {
    && |b| == |c| && |b| > FlagsOffset
    && (forall i :: 0 <= i < |b| && i != FlagsOffset ==> b[i] == c[i])
    && (forall k :: 0 <= k < 8 && k !in bits ==> Bit(b[FlagsOffset], k) == Bit(c[FlagsOffset], k))
  }

  /**
   * The reserved bits 1 and 5 of the flags byte have no effect: buffers that
   * differ only there parse alike.
   */
  lemma ReservedBitsIgnored(b: seq<byte>, c: seq<byte>)
    requires SameExceptFlagBits(b, c, {1, 5})
    ensures ParseAuthData(b) == ParseAuthData(c)
  {
    assert Bit(b[32], 0) == Bit(c[32], 0) && Bit(b[32], 2) == Bit(c[32], 2);
    assert Bit(b[32], 3) == Bit(c[32], 3) && Bit(b[32], 4) == Bit(c[32], 4);
    assert Bit(b[32], 6) == Bit(c[32], 6) && Bit(b[32], 7) == Bit(c[32], 7);
    if |b| >= 55 {
      var len := U16(b[53], b[54]);
      assert b[37..53] == c[37..53];
      if 55 + len <= |b| { assert b[55..55 + len] == c[55..55 + len]; }
    }
  }

  /**
   * The attested-data flag (bit 6) decides nothing: buffers that differ only in
   * it succeed or fail alike, with the same AAGUID and credential id.
   */
  lemma AttestedDataReadUnconditionally(b: seq<byte>, c: seq<byte>)
    requires SameExceptFlagBits(b, c, {6})
    ensures ParseAuthData(b).Ok? == ParseAuthData(c).Ok?
    ensures ParseAuthData(b).Ok? ==>
      ParseAuthData(c).value == ParseAuthData(b).value.(atPresent := Bit(c[32], 6))
  {
    assert Bit(b[32], 0) == Bit(c[32], 0) && Bit(b[32], 2) == Bit(c[32], 2);
    assert Bit(b[32], 3) == Bit(c[32], 3) && Bit(b[32], 4) == Bit(c[32], 4);
    assert Bit(b[32], 7) == Bit(c[32], 7);
    if |b| >= 55 {
      var len := U16(b[53], b[54]);
      assert b[37..53] == c[37..53];
      if 55 + len <= |b| { assert b[55..55 + len] == c[55..55 + len]; }
    }
  }

  /** Bytes after the credential id (extensions, the public key) are never looked at. */
  lemma TrailingBytesIgnored(b: seq<byte>, extra: seq<byte>)
    requires ParseAuthData(b).Ok?
    ensures ParseAuthData(b + extra) == ParseAuthData(b)
  {
    var c := b + extra;
    var len := U16(b[53], b[54]);
    assert c[53] == b[53] && c[54] == b[54] && c[32] == b[32];
    assert c[0] == b[0] && c[1] == b[1] && c[2] == b[2] && c[3] == b[3];
    assert c[55..55 + len] == b[55..55 + len];
    assert c[37..53] == b[37..53];
  }

  /**
   * As written, `signCount` is the big-endian u32 of bytes 0..3 of the buffer
   * (the first bytes of the RP-id hash), not of the counter field at 33..36.
   */
  lemma SignCountReadsBufferStart(b: seq<byte>)
    requires ParseAuthData(b).Ok?
    ensures ParseAuthData(b).value.signCount == U32(b[0], b[1], b[2], b[3])
  {
  }

  /** A buffer whose counter field (bytes 33..36) holds 0 but whose `signCount` is 2^24. */
  lemma SignCountIgnoresCounterField()
    ensures var b := [1 as byte] + Zeros(54);
      && ParseAuthData(b).Ok?
      && U32(b[33], b[34], b[35], b[36]) == 0
      && ParseAuthData(b).value.signCount == 0x100_0000
  {
    var b := [1 as byte] + Zeros(54);
    assert b[0] == 1 && b[1] == 0 && b[2] == 0 && b[3] == 0;
    assert b[53] == 0 && b[54] == 0;
    assert b[33] == 0 && b[34] == 0 && b[35] == 0 && b[36] == 0;
  }

  /** The signature counter where section 6.1 puts it: the big-endian u32 at bytes 33..36. */
  function CounterField(b: seq<byte>): (c: nat)
    requires |b| >= AaguidOffset
    ensures c < 0x1_0000_0000
  {
    U32(b[CounterOffset], b[CounterOffset + 1], b[CounterOffset + 2], b[CounterOffset + 3])
  }

  /**
   * Read from its own field, the counter does not depend on the RP-id hash:
   * buffers that agree from the flags byte on have the same counter.
   */
  lemma CounterFieldIgnoresRpIdHash(b: seq<byte>, c: seq<byte>)
    requires |b| >= AaguidOffset && |c| >= AaguidOffset && b[FlagsOffset..] == c[FlagsOffset..]
    ensures CounterField(b) == CounterField(c)
  {
    var tb, tc := b[FlagsOffset..], c[FlagsOffset..];
    assert b[33] == tb[1] && b[34] == tb[2] && b[35] == tb[3] && b[36] == tb[4];
    assert c[33] == tc[1] && c[34] == tc[2] && c[35] == tc[3] && c[36] == tc[4];
  }
}
