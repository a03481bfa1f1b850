/** encryptContent: NIP-44 encryption of a document body, either to the
    document's own view key or, without one, to the signed-in user. */
module Encryption {

  import opened Nostr

  /** A view key is used as a secret key whose conversation key is taken with
      its own public key, so anyone holding it can decrypt. */
  function ViewConversationKey(c: Crypto, viewKeyHex: string): Bytes
  {
    SelfConversationKey(c, c.hexToBytes(viewKeyHex))
  }

  /** With a non-empty view key the content is encrypted under it and the
      signer is never consulted. Otherwise the signer encrypts to its own
      public key; a missing signer, a rejected call and an empty ciphertext
      are the three error cases. */
  function EncryptContent(c: Crypto, content: string, viewKey: Option<string>, signer: Option<Signer>): (r: Result<string>)
    ensures Present(viewKey) ==> r.Ok?
    ensures !Present(viewKey) ==>
              (r.Ok? <==> signer.Some? && Present(signer.value.nip44Encrypt(signer.value.pubkey, content)))
    ensures !Present(viewKey) && signer.None? ==> r == Err(NoSigner)
    ensures !Present(viewKey) && r.Ok? ==> r.value != ""
  {
    if Present(viewKey) then
      Ok(c.encrypt(content, ViewConversationKey(c, viewKey.value)))
    else if signer.None? then
      Err(NoSigner)
    else
      var s := signer.value;
      match s.nip44Encrypt(s.pubkey, content)
      case None => Err(SignerFailed)
      case Some(encrypted) =>
        if encrypted == "" then Err(EncryptionFailed) else Ok(encrypted)
  }

  /** NIP-44 as a cipher: decryption under the same conversation key inverts
      encryption. This is the only property of the primitives any lemma uses. */
  ghost predicate CipherRoundTrips(c: Crypto)
  {
    forall m, k :: c.decrypt(c.encrypt(m, k), k) == Some(m)
  }

  /** Content encrypted to a view key decrypts back under that key. */
  lemma ViewKeyEncryptionRoundTrips(c: Crypto, content: string, viewKey: string, signer: Option<Signer>)
    requires CipherRoundTrips(c) && viewKey != ""
    ensures var r := EncryptContent(c, content, Some(viewKey), signer);
            r.Ok? && c.decrypt(r.value, ViewConversationKey(c, viewKey)) == Some(content)
  {
  }

  /** With a view key the result does not depend on the signer. */
  lemma ViewKeyIgnoresSigner(c: Crypto, content: string, viewKey: string, s1: Option<Signer>, s2: Option<Signer>)
    requires viewKey != ""
    ensures EncryptContent(c, content, Some(viewKey), s1) == EncryptContent(c, content, Some(viewKey), s2)
  {
  }

  /** Without a view key, a signer whose encryption fails or yields "" is an
      error, never an empty ciphertext. */
  lemma SignerPathErrors(c: Crypto, content: string, viewKey: Option<string>, s: Signer)
    requires !Present(viewKey)
    ensures s.nip44Encrypt(s.pubkey, content).None? ==> EncryptContent(c, content, viewKey, Some(s)) == Err(SignerFailed)
    ensures s.nip44Encrypt(s.pubkey, content) == Some("") ==> EncryptContent(c, content, viewKey, Some(s)) == Err(EncryptionFailed)
  {
  }
}
