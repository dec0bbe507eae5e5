/** How a vault password is stored: AES-256-GCM under the 32-byte `VAULT_KEY`,
    framed as `iv (12 bytes) ‖ tag (16 bytes) ‖ ciphertext`. The cipher itself is
    a parameter: a pair of functions, with `Correct` stating what the rest of the
    code relies on (a 16-byte tag, and opening what was sealed recovers it). */
module VaultCipher {

  import opened Wrappers

  newtype byte = x: int | 0 <= x < 256

  type Bytes = seq<byte>

  const KeyLength: nat := 32
  const IvLength: nat := 12
  const TagLength: nat := 16
  /** Where the ciphertext starts in a blob. */
  const HeaderLength: nat := IvLength + TagLength

  /** An authenticated cipher. `seal(key, iv, text)` is the ciphertext and the
      authentication tag (`cipher.update` + `cipher.final`, `getAuthTag`);
      `open(key, iv, tag, ciphertext)` is the text, or `None` where creating the
      decipher (an empty nonce), `setAuthTag` (a tag of invalid length) or
      `final()` (a tag that does not match) throws. Text is a string: its UTF-8
      encoding is part of the cipher. */
  datatype Aead = Aead(seal: (Bytes, Bytes, string) -> (Bytes, Bytes),
                       open: (Bytes, Bytes, Bytes, Bytes) -> Option<string>)

  /** What AES-256-GCM guarantees under a 32-byte key and a 12-byte nonce. */
  ghost predicate Correct(c: Aead) {
    forall key: Bytes, iv: Bytes, text: string ::
      |key| == KeyLength && |iv| == IvLength ==>
        |c.seal(key, iv, text).1| == TagLength
        && c.open(key, iv, c.seal(key, iv, text).1, c.seal(key, iv, text).0) == Some(text)
  }

  /** `Buffer.concat([iv, tag, enc])`. */
  function Frame(iv: Bytes, tag: Bytes, enc: Bytes): (blob: Bytes)
    ensures |blob| == |iv| + |tag| + |enc|
  {
    iv + tag + enc
  }

  /** `buf.subarray(start, end)`: bounds past the end are clamped to it. */
  function Subarray(buf: Bytes, start: nat, end: nat): (r: Bytes)
    requires start <= end
    ensures |r| == (if end <= |buf| then end else |buf|) - (if start <= |buf| then start else |buf|)
  {
    var e := if end <= |buf| then end else |buf|;
    var s := if start <= |buf| then start else |buf|;
    buf[s..e]
  }

  /** The three slices `decryptSecret` cuts: `[0, 12)`, `[12, 28)` and `[28, end)`. */
  function Unframe(buf: Bytes): (parts: (Bytes, Bytes, Bytes))
    ensures |parts.0| <= IvLength && |parts.1| <= TagLength
    ensures parts.0 + parts.1 + parts.2 == buf
  {
    (Subarray(buf, 0, IvLength), Subarray(buf, IvLength, HeaderLength), Subarray(buf, HeaderLength, |buf| + HeaderLength))
  }

  /** `encryptSecret(plaintext)` with the decoded key and the fresh nonce as
      parameters: `None` (`null`) unless the key has exactly 32 bytes. */
  function EncryptSecret(c: Aead, key: Bytes, iv: Bytes, plaintext: string): (r: Option<Bytes>)
    requires |iv| == IvLength
    ensures r.None? <==> |key| != KeyLength
    ensures r.Some? ==> |r.value| >= IvLength && r.value[..IvLength] == iv
  {
    if |key| != KeyLength then None
    else
      var (enc, tag) := c.seal(key, iv, plaintext);
      Some(Frame(iv, tag, enc))
  }

  /** The outcome of `decryptSecret`: `null` for a missing or malformed key, an
      exception from `final()`, or the text. */
  datatype Decrypted = NoKey | AuthFailure | Plain(text: string)

  function DecryptSecret(c: Aead, key: Bytes, blob: Bytes): (r: Decrypted)
    ensures r.NoKey? <==> |key| != KeyLength
    ensures r.AuthFailure? <==> |key| == KeyLength && c.open(key, Unframe(blob).0, Unframe(blob).1, Unframe(blob).2).None?
    ensures r.Plain? ==> c.open(key, Unframe(blob).0, Unframe(blob).1, Unframe(blob).2) == Some(r.text)
  {
    if |key| != KeyLength then NoKey
    else
      var (iv, tag, enc) := Unframe(blob);
      match c.open(key, iv, tag, enc)
      case None => AuthFailure
      case Some(text) => Plain(text)
  }

  /** Slicing a framed blob recovers exactly the nonce, tag and ciphertext. */
  lemma UnframeFrame(iv: Bytes, tag: Bytes, enc: Bytes)
    requires |iv| == IvLength && |tag| == TagLength
    ensures Unframe(Frame(iv, tag, enc)) == (iv, tag, enc)
  {
    var blob := Frame(iv, tag, enc);
    assert blob[..IvLength] == iv;
    assert blob[IvLength..HeaderLength] == tag;
    assert blob[HeaderLength..] == enc;
  }

  /** Conversely every blob of at least 28 bytes is the frame of its slices. */
  lemma FrameUnframe(blob: Bytes)
    requires |blob| >= HeaderLength
    ensures |Unframe(blob).0| == IvLength && |Unframe(blob).1| == TagLength
    ensures Frame(Unframe(blob).0, Unframe(blob).1, Unframe(blob).2) == blob
  {
  }

  /** There is no length check: a blob shorter than 28 bytes is cut into a short
      nonce and tag and an empty ciphertext, and handed to the cipher. */
  lemma ShortBlobReachesCipher(blob: Bytes)
    requires |blob| < HeaderLength
    ensures Unframe(blob).2 == []
    ensures Unframe(blob).0 + Unframe(blob).1 == blob
  {
  }

  /** What `encryptSecret` stores, `decryptSecret` turns back into the password,
      under the same key. */
  lemma RoundTrip(c: Aead, key: Bytes, iv: Bytes, plaintext: string)
    requires Correct(c) && |key| == KeyLength && |iv| == IvLength
    ensures EncryptSecret(c, key, iv, plaintext).Some?
    ensures DecryptSecret(c, key, EncryptSecret(c, key, iv, plaintext).value) == Plain(plaintext)
  {
    var (enc, tag) := c.seal(key, iv, plaintext);
    UnframeFrame(iv, tag, enc);
  }

  /** With a 32-byte key a blob of any length goes to the cipher, and only the
      cipher's own check rejects it. */
  /** A stored blob is read back at the layout it was written in: decrypting the
      frame of a 12-byte nonce, a 16-byte tag and a ciphertext opens exactly
      those three parts. */
  lemma DecryptOutcomes(c: Aead, key: Bytes, iv: Bytes, tag: Bytes, enc: Bytes)
    requires |key| == KeyLength && |iv| == IvLength && |tag| == TagLength
    ensures DecryptSecret(c, key, Frame(iv, tag, enc)) ==
      match c.open(key, iv, tag, enc)
      case None => AuthFailure
      case Some(text) => Plain(text)
  {
    UnframeFrame(iv, tag, enc);
  }

}
