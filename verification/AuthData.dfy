/**
The binary layout of WebAuthn authenticator data with attested credential data (sections 6.1 and
6.5.1 of Web Authentication Level 2), and the parser that takes the public key out of it.

The parser computes `55 + credIDLen` in sixteen bits. Slicing out of bounds stops the program; that
is the outcome `Panic` here.
*/
module AuthData {
  type Bytes = s: seq<int> | forall i :: 0 <= i < |s| ==> 0 <= s[i] < 256 witness []

  datatype Parsed = Parsed(aaguid: Bytes, credentialId: Bytes, publicKey: Bytes)

  datatype Outcome = Ok(value: Parsed) | TooShort | Panic

  const HEADER := 55

  /** Big-endian, sixteen bits. */
  function Uint16(high: int, low: int): int {
    256 * high + low
  }

  /** The end of the credential id, in sixteen-bit arithmetic. */
  function IdEnd(idLength: int): int {
    (HEADER + idLength) % 65536
  }

  function Parse(data: Bytes): Outcome {
    if |data| < HEADER then TooShort
    else
      var end := IdEnd(Uint16(data[53], data[54]));
      if !(HEADER <= end <= |data|) then Panic
      else Ok(Parsed(data[37..53], data[HEADER..end], data[end..]))
  }

  /** The layout: rp id hash, flags, sign count, AAGUID, id length, id, public key. */
  function Encode(rpIdHash: Bytes, flags: int, signCount: Bytes, p: Parsed): (data: Bytes)
    requires |rpIdHash| == 32 && 0 <= flags < 256 && |signCount| == 4
    requires |p.aaguid| == 16 && |p.credentialId| < 65536
    ensures |data| == HEADER + |p.credentialId| + |p.publicKey|
  {
    var n := |p.credentialId|;
    rpIdHash + [flags] + signCount + p.aaguid + [n / 256, n % 256] + p.credentialId + p.publicKey
  }

  /** An id of 65481 bytes or more wraps round to an end before the start of the id. */
  lemma IdEndWraps(n: int)
    requires 0 <= n < 65536
    ensures n <= 65480 ==> IdEnd(n) == HEADER + n
    ensures n > 65480 ==> IdEnd(n) < HEADER
  {}

  lemma LengthField(n: int)
    requires 0 <= n < 65536
    ensures Uint16(n / 256, n % 256) == n
  {}

  /** Parsing gives back what was encoded exactly when the credential id has at most 65480 bytes; otherwise it stops. */
  lemma RoundTripIff(rpIdHash: Bytes, flags: int, signCount: Bytes, p: Parsed)
    requires |rpIdHash| == 32 && 0 <= flags < 256 && |signCount| == 4
    requires |p.aaguid| == 16 && |p.credentialId| < 65536
    ensures Parse(Encode(rpIdHash, flags, signCount, p))
         == if |p.credentialId| <= 65480 then Ok(p) else Panic
  {
    var n := |p.credentialId|;
    var data := Encode(rpIdHash, flags, signCount, p);
    var head := rpIdHash + [flags] + signCount;
    assert data == head + p.aaguid + [n / 256, n % 256] + p.credentialId + p.publicKey;
    assert data[37..53] == p.aaguid;
    assert data[53] == n / 256 && data[54] == n % 256;
    LengthField(n);
    IdEndWraps(n);
    if n <= 65480 {
      assert data[HEADER..HEADER + n] == p.credentialId;
      assert data[HEADER + n..] == p.publicKey;
    }
  }

  /** Whatever is parsed is laid out as the standard says: encoding it again gives the same bytes. */
  lemma ParsedIsEncoded(data: Bytes)
    requires Parse(data).Ok?
    ensures Encode(data[..32], data[32], data[33..37], Parse(data).value) == data
  {
    var p := Parse(data).value;
    var n := |p.credentialId|;
    IdEndWraps(Uint16(data[53], data[54]));
    assert n == Uint16(data[53], data[54]);
    assert n / 256 == data[53] && n % 256 == data[54];
    assert data == data[..32] + [data[32]] + data[33..37] + data[37..53] + [data[53], data[54]]
                   + data[HEADER..HEADER + n] + data[HEADER + n..];
  }
}
