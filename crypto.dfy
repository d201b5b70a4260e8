/**
 * The prototype crypto layer (services/cryptoService.ts). None of it is
 * cryptography: `encrypt` frames base64 text behind an `enc:` tag and a key
 * prefix, `decrypt` undoes that framing for any key, `sign` builds a string
 * from the payload and the private key, and `verify` checks only the `sig_`
 * tag. The model states exactly that.
 *
 * Randomness and the clock are parameters: `entropy` and `idSuffix` stand for
 * the two `Math.random().toString(36)` slices, `clockPk` and `clockSk` for the
 * two `Date.now()` readings.
 */
module Crypto {
  import opened Wrappers
  import opened Bytes
  import opened Text
  import opened Types
  import Utf8
  import Base64

  /** What `decrypt` can throw: `atob`'s InvalidCharacterError or `decodeURIComponent`'s URIError. */
  datatype DecryptError = InvalidCharacter | MalformedUri

  /** Every character code of `s` is below 256, so `s` is a "binary string". */
  predicate IsBinaryString(s: string) { forall i :: 0 <= i < |s| ==> s[i] as int < 256 }

  /** The bytes of a binary string (one per character), or None when some code is 256 or more. */
  function BinaryBytes(s: string): (r: Option<seq<Byte>>)
    ensures r.Some? <==> IsBinaryString(s)
    ensures r.Some? ==> |r.value| == |s| && forall i :: 0 <= i < |s| ==> r.value[i] == s[i] as int
    decreases |s|
  {
    if s == [] then Some([])
    else if s[0] as int >= 256 then None
    else
      match BinaryBytes(s[1..])
      case None => None
      case Some(rest) => Some([s[0] as int as Byte] + rest)
  }

  /** `btoa(s)`: the base64 text of a binary string; None where `btoa` throws. */
  function Btoa(s: string): (r: Option<string>)
    ensures r.Some? <==> IsBinaryString(s)
  {
    match BinaryBytes(s)
    case None => None
    case Some(b) => Some(Base64.Encode(b))
  }

  /** `generateIdentity(alias)` with its random draws and clock readings passed in. */
  function GenerateIdentity(alias: string, entropy: string, idSuffix: string, clockPk: nat, clockSk: nat): (r: Credentials)
    ensures r.identity.alias == alias
    ensures r.identity.publicKey == r.keys.publicKey
    ensures "atls_" <= r.identity.id && "pk_" <= r.keys.publicKey && "sk_" <= r.keys.privateKey
    ensures r.keys.publicKey != r.keys.privateKey
    ensures r.identity.settings == Settings(sendReadReceipts := true, stealthMode := false)
  {
    var publicKey := "pk_" + entropy + "_" + NatToString(clockPk);
    var privateKey := "sk_" + entropy + "_" + NatToString(clockSk);
    var id := "atls_" + idSuffix;
    assert publicKey[0] != privateKey[0];
    Credentials(
      Identity(id, publicKey, alias, Settings(sendReadReceipts := true, stealthMode := false)),
      KeyPair(publicKey, privateKey))
  }

  /** The key strings embed the entropy and the clock readings, which can be read back. */
  lemma GeneratedKeysCarryClock(alias: string, entropy: string, idSuffix: string, clockPk: nat, clockSk: nat)
    ensures var c := GenerateIdentity(alias, entropy, idSuffix, clockPk, clockSk);
      var pk, sk := c.keys.publicKey, c.keys.privateKey;
      && pk[3..3 + |entropy|] == sk[3..3 + |entropy|] == entropy
      && AllDigits(pk[4 + |entropy|..]) && ParseDigits(pk[4 + |entropy|..]) == clockPk
      && AllDigits(sk[4 + |entropy|..]) && ParseDigits(sk[4 + |entropy|..]) == clockSk
  {
    KeyFields("pk_", entropy, clockPk);
    KeyFields("sk_", entropy, clockSk);
  }

  /** A key string `<tag><entropy>_<clock>` with a three-character tag, read back field by field. */
  lemma KeyFields(tag: string, entropy: string, clock: nat)
    requires |tag| == 3
    ensures var k := tag + entropy + "_" + NatToString(clock);
      && k[3..3 + |entropy|] == entropy
      && AllDigits(k[4 + |entropy|..]) && ParseDigits(k[4 + |entropy|..]) == clock
  {
    var k := tag + entropy + "_" + NatToString(clock);
    assert k[4 + |entropy|..] == NatToString(clock);
    ParseNatToString(clock);
  }

  /** `sign(payload, privateKey)`: None where `btoa(payload)` throws. */
  function Sign(payload: string, privateKey: string): (r: Option<string>)
    ensures r.Some? <==> IsBinaryString(payload)
    ensures r.Some? ==> "sig_" <= r.value
  {
    match Btoa(payload)
    case None => None
    case Some(b) => Some("sig_" + Take(b, 16) + "_" + Take(privateKey, 8))
  }

  /**
   * The layout of a signature: the tag, at most sixteen leading characters of
   * the payload's base64 text, an underscore, at most eight leading characters
   * of the private key.
   */
  lemma SignatureLayout(payload: string, privateKey: string)
    requires Sign(payload, privateKey).Some?
    ensures var sig := Sign(payload, privateKey).value;
      var e := Base64.Encode(BinaryBytes(payload).value);
      var n := Min(|e|, 16);
      && |sig| == 5 + n + Min(|privateKey|, 8)
      && sig[4..4 + n] == e[..n]
      && sig[4 + n] == '_'
      && sig[5 + n..] == privateKey[..Min(|privateKey|, 8)]
  {
    var e := Base64.Encode(BinaryBytes(payload).value);
    var t, k := Take(e, 16), Take(privateKey, 8);
    assert Sign(payload, privateKey).value == "sig_" + t + "_" + k;
    JoinedFields(t, k);
  }

  lemma JoinedFields(t: string, k: string)
    ensures var s := "sig_" + t + "_" + k;
      |s| == 5 + |t| + |k| && s[4..4 + |t|] == t && s[4 + |t|] == '_' && s[5 + |t|..] == k
  {
  }

  /** `verify(payload, signature, publicKey)`: only the `sig_` tag is checked. */
  function Verify(payload: string, signature: string, publicKey: string): (r: bool)
    ensures r <==> |signature| >= 4 && signature[..4] == "sig_"
  {
    "sig_" <= signature
  }

  /** Every signature `sign` produces is accepted, for any payload and any public key. */
  lemma VerifyAcceptsSigned(payload: string, privateKey: string, other: string, publicKey: string)
    requires Sign(payload, privateKey).Some?
    ensures Verify(other, Sign(payload, privateKey).value, publicKey)
  {
  }

  /** The acceptance of a signature depends on nothing but the signature. */
  lemma VerifyIgnoresPayloadAndKey(p1: string, p2: string, signature: string, k1: string, k2: string)
    ensures Verify(p1, signature, k1) == Verify(p2, signature, k2)
    ensures Verify(p1, signature, k1) <==> |signature| >= 4 && signature[..4] == "sig_"
  {
  }

  /** The text after the first '_' that follows the `sig_` tag. */
  function KeyPartOf(signature: string): (r: string)
    ensures |r| < |signature| ==> r == signature[|signature| - |r|..]
    ensures |r| <= |signature|
  {
    match IndexOf(signature, "_", 4)
    case None => ""
    case Some(i) => signature[i + 1..]
  }

  /**
   * A signature carries the first eight characters of the private key in the
   * clear: base64 text has no '_', so they are everything after the second '_'.
   */
  lemma SignatureRevealsKeyPrefix(payload: string, privateKey: string)
    requires Sign(payload, privateKey).Some?
    ensures KeyPartOf(Sign(payload, privateKey).value) == Take(privateKey, 8)
  {
    var b := Btoa(payload).value;
    var t := Take(b, 16);
    var sig := Sign(payload, privateKey).value;
    assert sig == "sig_" + t + "_" + Take(privateKey, 8);
    forall k | 4 <= k < 4 + |t|
      ensures !OccursAt(sig, "_", k)
    {
      assert sig[k..k + 1] == [t[k - 4]];
      assert t[k - 4] == b[k - 4];
    }
    assert OccursAt(sig, "_", 4 + |t|);
  }

  /** `encrypt(text, recipientPublicKey, myPrivateKey)`: the private key is not used. */
  function Encrypt(text: string, recipientPublicKey: string, myPrivateKey: string): (r: string)
    ensures "enc:" <= r
    ensures LastField(r) == Base64.Encode(Utf8.Encode(text))
  {
    var encoded := Base64.Encode(Utf8.Encode(text));
    Base64.EncodeHasNoColon(Utf8.Encode(text));
    LastFieldAfterColon("enc:" + Take(recipientPublicKey, 5), encoded);
    "enc:" + Take(recipientPublicKey, 5) + ":" + encoded
  }

  /** The framing of an encrypted payload: the tag, at most five key characters, a colon, the base64 text. */
  lemma EncryptShape(text: string, recipientPublicKey: string, k1: string, k2: string)
    ensures Encrypt(text, recipientPublicKey, k1) == Encrypt(text, recipientPublicKey, k2)
    ensures var r := Encrypt(text, recipientPublicKey, k1);
      var n := Min(|recipientPublicKey|, 5);
      && r[4..4 + n] == recipientPublicKey[..n]
      && r[4 + n] == ':'
      && r[5 + n..] == Base64.Encode(Utf8.Encode(text))
  {
  }

  /** An encrypted payload is a binary string exactly when the key characters it keeps are. */
  lemma EncryptIsBinaryIff(text: string, recipientPublicKey: string, myPrivateKey: string)
    ensures IsBinaryString(Encrypt(text, recipientPublicKey, myPrivateKey))
      <==> IsBinaryString(Take(recipientPublicKey, 5))
  {
    var t := Take(recipientPublicKey, 5);
    var e := Base64.Encode(Utf8.Encode(text));
    assert Encrypt(text, recipientPublicKey, myPrivateKey) == "enc:" + t + ":" + e;
    EncodingIsBinary(Utf8.Encode(text));
    BinaryConcat("enc:", t);
    BinaryConcat("enc:" + t, ":");
    BinaryConcat("enc:" + t + ":", e);
  }

  /** Base64 text is a binary string. */
  lemma EncodingIsBinary(b: seq<Byte>)
    ensures IsBinaryString(Base64.Encode(b))
  {
    var e := Base64.Encode(b);
    forall i | 0 <= i < |e| ensures e[i] as int < 256 {
      assert Base64.InAlphabet(e[i]) || e[i] == '=';
    }
  }

  lemma BinaryConcat(a: string, b: string)
    ensures IsBinaryString(a + b) <==> IsBinaryString(a) && IsBinaryString(b)
  {
    if IsBinaryString(a + b) {
      forall i | 0 <= i < |a| ensures a[i] as int < 256 {
        assert a[i] == (a + b)[i];
      }
      forall i | 0 <= i < |b| ensures b[i] as int < 256 {
        assert b[i] == (a + b)[|a| + i];
      }
    }
  }

  /** Base64 decoding, then UTF-8 decoding, of the last field of an encrypted payload. */
  function DecodeField(encoded: string): (r: Result<string, DecryptError>)
    ensures r == Failure(InvalidCharacter) <==> Base64.Decode(encoded).None?
    ensures r == Failure(MalformedUri) <==>
      Base64.Decode(encoded).Some? && Utf8.Decode(Base64.Decode(encoded).value).None?
  {
    match Base64.Decode(encoded)
    case None => Failure(InvalidCharacter)
    case Some(bytes) =>
      match Utf8.Decode(bytes)
      case None => Failure(MalformedUri)
      case Some(text) => Success(text)
  }

  /**
   * `decrypt(encryptedPayload, myPrivateKey)`: a payload without the `enc:`
   * tag is returned as it is; otherwise only the text after its last colon
   * is read. The private key is not used.
   */
  function Decrypt(encryptedPayload: string, myPrivateKey: string): (r: Result<string, DecryptError>)
    ensures !("enc:" <= encryptedPayload) ==> r == Success(encryptedPayload)
    ensures "enc:" <= encryptedPayload ==> r == DecodeField(LastField(encryptedPayload))
  {
    if !("enc:" <= encryptedPayload) then Success(encryptedPayload)
    else DecodeField(LastField(encryptedPayload))
  }

  /** The private key never affects the result of decryption. */
  lemma DecryptIgnoresKey(encryptedPayload: string, k1: string, k2: string)
    ensures Decrypt(encryptedPayload, k1) == Decrypt(encryptedPayload, k2)
  {
  }

  /** Decryption undoes encryption for every text, whatever keys either side holds. */
  lemma DecryptEncrypt(text: string, recipientPublicKey: string, senderKey: string, receiverKey: string)
    ensures Decrypt(Encrypt(text, recipientPublicKey, senderKey), receiverKey) == Success(text)
  {
    Base64.DecodeEncode(Utf8.Encode(text));
    Utf8.DecodeEncode(text);
  }

  /** Whatever `decrypt` yields for a tagged payload, the canonical re-encoding of that text has the same bytes. */
  lemma DecryptedTextReencodes(encryptedPayload: string, myPrivateKey: string)
    requires "enc:" <= encryptedPayload
    requires Decrypt(encryptedPayload, myPrivateKey).Success?
    ensures var text := Decrypt(encryptedPayload, myPrivateKey).value;
      Base64.Decode(LastField(encryptedPayload)) == Some(Utf8.Encode(text))
  {
    var bytes := Base64.Decode(LastField(encryptedPayload)).value;
    Utf8.EncodeDecode(bytes);
  }
}
