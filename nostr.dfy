/** Shared vocabulary of the document editor: Nostr events, the foreign
    cryptography and signer interfaces, and the effects that the flows emit.
    Cryptography is never interpreted: a `Crypto` or `Signer` value is an
    arbitrary record of functions, so every lemma holds for all of them. */
module Nostr {

  datatype Option<+T> = None | Some(value: T)

  /** The exceptions the core raises or lets propagate. */
  datatype Error =
    | NoSigner          // signerManager.getSigner() rejected
    | EncryptionFailed  // the signer's NIP-44 encryption produced no ciphertext
    | SignerFailed      // a signer round trip (sign, encrypt, decrypt) rejected
    | InvalidAddress    // parseAddress returned null
    | TypeError         // a property of `undefined` was read

  datatype Result<+T> = Ok(value: T) | Err(error: Error)

  type Byte = x: int | 0 <= x < 256
  type Bytes = seq<Byte>
  type Tag = seq<string>

  /** Event kinds used by the application (src/nostr/kinds.ts and call sites). */
  const KIND_FILE: nat := 33457
  const KIND_DELETION: nat := 5
  const KIND_SHARED_LIST: nat := 11234
  const KIND_RELAY_LIST: nat := 10002

  /** A signed event as delivered by a relay. */
  datatype Event = Event(
    id: string,
    pubkey: string,
    createdAt: int,
    kind: nat,
    tags: seq<Tag>,
    content: string,
    sig: string)

  /** An event template handed to a signer; `pubkey` is absent when the caller
      does not set it. */
  datatype Template = Template(
    kind: nat,
    pubkey: Option<string>,
    createdAt: int,
    tags: seq<Tag>,
    content: string)

  /** One decrypted revision, and the history kept per address. */
  datatype Version = Version(event: Event, decryptedContent: string)
  datatype History = History(address: string, versions: seq<Version>)

  /** The nostr-tools primitives and the two codecs the core calls. */
  datatype Crypto = Crypto(
    getPublicKey: Bytes -> string,
    getConversationKey: (Bytes, string) -> Bytes,
    encrypt: (string, Bytes) -> string,
    decrypt: (string, Bytes) -> Option<string>,   // None: nip44.decrypt threw
    eventHash: (nat, string, int, seq<Tag>, string) -> string,
    schnorrSign: (string, Bytes) -> string,
    hexToBytes: string -> Bytes,
    bytesToHex: Bytes -> string,
    naddrEncode: (nat, string, string) -> string,
    encodeNKeys: (string, Option<string>) -> string)

  /** The session signer; a None result means that the call rejected. */
  datatype Signer = Signer(
    pubkey: string,
    signEvent: Template -> Option<Event>,
    nip44Encrypt: (string, string) -> Option<string>,
    nip44Decrypt: (string, string) -> Option<string>)

  /** Observable effects, in the order a flow performs them. */
  datatype Effect =
    | SignRequest(template: Template)     // signer.signEvent(template)
    | Publish(event: Event)               // publishEvent(event, relays)
    | AddDocument(event: Event)           // the document store's addDocument
    | RemoveDocument(id: string)          // the document store's removeDocument
    | DeleteInvoked(address: Option<string>) // deleteEvent called with this address
    | Navigate(path: string)              // router navigation

  /** JavaScript truthiness of an optional string. */
  predicate Present(s: Option<string>)
  {
    s.Some? && s.value != ""
  }

  /** The conversation key of a secret with its own public key. */
  function SelfConversationKey(c: Crypto, sk: Bytes): Bytes
  {
    c.getConversationKey(sk, c.getPublicKey(sk))
  }

  /** nostr-tools finalizeEvent: stamps the key's public key, hashes and signs. */
  function FinalizeEvent(c: Crypto, t: Template, sk: Bytes): (e: Event)
    ensures e.pubkey == c.getPublicKey(sk)
    ensures e.kind == t.kind && e.tags == t.tags && e.content == t.content
    ensures e.createdAt == t.createdAt
  {
    var pk := c.getPublicKey(sk);
    var id := c.eventHash(t.kind, pk, t.createdAt, t.tags, t.content);
    Event(id, pk, t.createdAt, t.kind, t.tags, t.content, c.schnorrSign(id, sk))
  }

  /** Math.floor(Date.now() / 1000) for a clock reading in milliseconds. */
  function Seconds(nowMs: int): int
  {
    nowMs / 1000
  }

  /** Whether some effect of the trace is a publish. */
  predicate PublishesAnything(effects: seq<Effect>)
  {
    exists i :: 0 <= i < |effects| && effects[i].Publish?
  }
}
