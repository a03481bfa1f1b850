# nostr-docs core, modelled in Dafny

This project models the document-versioning and addressing logic of the
nostr-docs editor. Documents are NIP-44-encrypted Nostr events of kind 33457,
addressed by the NIP-01 coordinate `33457:<pubkey>:<d>`. The model covers:

- the shared-documents store: the list of `[address, viewKey, ...]` entries and
  the per-address version history that a subscription fills;
- the address helpers and the `parseAddress` parser;
- the NIP-09 deletion request;
- the latest-per-identifier selection done when fetching;
- the editor controller's save, history, delete and share flows;
- private-link issuance;
- the small pure pieces: `encryptContent`, `makeTag`, the document list
  updates, the NIP-65 relay selection, the base64 helpers and the title-to-id
  rule.

Cryptography is modelled as uninterpreted functions. A `Crypto` value is a
record of arbitrary functions: NIP-44, key derivation, event hashing and
signing, hex, `naddrEncode` and `encodeNKeys`. A `Signer` is a public key
together with arbitrary sign, encrypt and decrypt functions, where `None`
stands for a rejected call. Every lemma therefore holds for every such
implementation.

Inputs that come from the environment are parameters:

- clock readings (`nowMs`);
- the random words of `crypto.getRandomValues`;
- fresh `generateSecretKey` results;
- the events a relay delivers;
- `JSON.parse` and `JSON.stringify`;
- the session signer, with `None` meaning `signerManager.getSigner()` rejected.

That rejection is the only way to have no signer, because `getSigner` throws
instead of returning null (src/signer/index.ts). The `if (!signer)` guards
after it are therefore dead, and the model has no separate path for them.

Flows that change state or call out are methods that return an `Effect` trace:

- sign requests;
- publishes;
- additions to and removals from the document store;
- `deleteEvent` invocations;
- navigation.

Their contracts fix the order of those effects.

Two inconsistencies in the source are modelled as written:

- **The selected id is a full address.** The editor's selected id is the full
  `33457:<pubkey>:<d>` address. `handleGeneratePrivateLink` uses that address
  verbatim as the shared copy's `d` identifier, so the copy's own address has
  five colon-separated parts (`ShareLink.SharedCopyOfAddressIsUnparseable`).
- **`deleteEvent` gets the wrong argument.** It is called with
  `{eventKind, eventId}`, so it receives no `address`. It then throws a
  TypeError, before any signer call. This affects both the edit-link flow and
  the editor's delete action; see "## Findings".

The editor reads its histories from a map-based document store that is not
the shown `DocumentContext`. `DocEditorController.Controller` keeps that store
abstractly as the history map of the shared-documents model. The store's own
`addDocument` and `removeDocument` appear only as effects.

## Model

| member | source | states |
|---|---|---|
| Helpers.GetEventAddress | src/utils/helpers.ts:3-8 | null exactly when the first tag named "d" has no value or an empty one; otherwise `kind:pubkey:d` from the event's own kind and pubkey |
| Helpers.GetLatestVersion | src/utils/helpers.ts:10-12 | the last version, null exactly when there are no versions |
| Helpers.OnlyFirstDTagCounts | src/utils/helpers.ts:4 | tags after the first "d" tag are ignored, even a later "d" tag with a value |
| Helpers.FormatAddressSplits | src/utils/helpers.ts:7 | an address whose pubkey and identifier have no colon splits into exactly `[kind, pubkey, d]` |
| DeleteRequest.ParseAddress | src/nostr/deleteRequest.ts:8-19 | on success the pubkey and identifier are the second and third parts, colon-free and verbatim, and the kind is what `parseInt` reads from the first part |
| DeleteRequest.ParseAddressAccepts | src/nostr/deleteRequest.ts:13-18 | a three-part string whose first part parses is accepted with its parts unchanged |
| DeleteRequest.ParseAddressRejectsNaN | src/nostr/deleteRequest.ts:16-17 | a kind part with no leading integer gives null |
| DeleteRequest.ParseAddressReadsLeadingNumber | src/nostr/deleteRequest.ts:16 | `parseInt` semantics: " 5x:ab:cd" parses as kind 5 |
| DeleteRequest.ParseIntReadsLeadingNumber | src/nostr/deleteRequest.ts:16 | `parseInt(" 5x", 10)` is 5: leading white space is skipped and trailing junk ignored |
| DeleteRequest.AddressRoundTrip | src/utils/helpers.ts:7 | parseAddress inverts getEventAddress when pubkey and identifier have no colon |
| DeleteRequest.DeletionTemplate | src/nostr/deleteRequest.ts:46-55 | kind 5, content is the reason, pubkey is the signer's, tags exactly `[["a", address], ["k", String(kind)]]` |
| DeleteRequest.DeletionTagsAgree | src/nostr/deleteRequest.ts:51-54 | the `k` tag parses back to the address's kind and the `a` tag is the address |
| DeleteRequest.DeleteEvent | src/nostr/deleteRequest.ts:27-61 | a missing address throws a TypeError and an unparseable one is rejected, both before any signer call; the default reason (line 30) is used; the request is signed, then published, then returned; it publishes exactly when it succeeds |
| FetchFile.LatestOf | src/nostr/fetchFile.ts:67-83 | null exactly when nothing was delivered |
| FetchFile.LatestOfIsMaximal | src/nostr/fetchFile.ts:75-77 | the kept event was delivered and has the greatest `created_at` |
| FetchFile.LatestOfKeepsFirstOnTies | src/nostr/fetchFile.ts:103-105 | the strict `>` keeps the earliest delivered among equal greatest timestamps |
| FetchFile.WithD | src/nostr/fetchFile.ts:34-41 | the events whose first qualifying d tag has the given value |
| FetchFile.GroupLatestIsLatestPerIdentifier | src/nostr/fetchFile.ts:28-52 | an identifier is a key exactly when it is non-empty and some event carries it; its value is the latest such event, the first on ties |
| FetchFile.GroupedEventsCarryTheirKey | src/nostr/fetchFile.ts:41-48 | each kept event was delivered, carries its key as d value, and is at least as new as every other event with that value |
| FetchFile.WithDContains | src/nostr/fetchFile.ts:34-41 | every delivered event with that d value takes part in the selection |
| FetchFile.FetchAllDocuments | src/nostr/fetchFile.ts:8-57 | every delivered event is forwarded once, in order (lines 20-23), and the grouped result is the latest event per identifier |
| FetchFile.CollectLatest | src/nostr/fetchFile.ts:89-115 | every delivered event is forwarded once in order, and the result is the latest, or null |
| StableSort.SortBy | src/contexts/SharedDocsContext.tsx:132-138 | `Array.prototype.sort` with a key comparator: the result is a permutation of the input in non-decreasing key order |
| StableSort.SortBySorted | src/contexts/SharedDocsContext.tsx:138 | sorting a list that is already in non-decreasing key order returns it unchanged |
| StableSort.SortByAppend | src/contexts/SharedDocsContext.tsx:132-138 | sorting a sorted list with one element appended places the element after every element with an equal key |
| StableSort.InsertAfterKeepsSorted | src/contexts/SharedDocsContext.tsx:132-138 | inserting after every element with a key that is not greater keeps the order |
| SharedDocs.FindIndex | src/contexts/SharedDocsContext.tsx:223 | the index of the first entry with that first element, or none |
| SharedDocs.GetKeys | src/contexts/SharedDocsContext.tsx:59-62 | the elements after index 0 of the first entry whose element 0 is the id, or `[]` |
| SharedDocs.AddOrReplace | src/contexts/SharedDocsContext.tsx:223-226 | replaces the first entry with the same address at its index, otherwise appends; the length grows by at most one |
| SharedDocs.AddThenGetKeys | src/contexts/SharedDocsContext.tsx:223-226 | after an add, getKeys of the added address gives the added keys |
| SharedDocs.AddLeavesOtherKeys | src/contexts/SharedDocsContext.tsx:223-226 | an add leaves getKeys of every other address unchanged |
| SharedDocs.Admit | src/contexts/SharedDocsContext.tsx:103-120 | the event is dropped exactly when any of these holds: it has no d value, no entry has its address, the entry has no key, or decryption throws; otherwise the address is `33457:<event.pubkey>:<d>` |
| SharedDocs.IngestEvent | src/contexts/SharedDocsContext.tsx:102-143 | a dropped event leaves the map unchanged |
| SharedDocs.IngestKeyIsEventAddress | src/contexts/SharedDocsContext.tsx:103-106 | for a kind-33457 event the key is its getEventAddress |
| SharedDocs.IngestDuplicateIsNoop | src/contexts/SharedDocsContext.tsx:128-130 | an event whose id is already in its history leaves the map unchanged |
| SharedDocs.IngestIdempotent | src/contexts/SharedDocsContext.tsx:128-130 | ingesting the same event twice is ingesting it once |
| SharedDocs.AddVersionContains | src/contexts/SharedDocsContext.tsx:121-141 | the new history holds the old versions plus the new one, and other addresses are unchanged |
| SharedDocs.IngestNewAddsOneVersion | src/contexts/SharedDocsContext.tsx:121-141 | a new event adds exactly one version to its address, as a permutation of the old versions plus it, and leaves every other address untouched |
| SharedDocs.IngestKeepsTimestampOrder | src/contexts/SharedDocsContext.tsx:132-138 | the versions stay in non-decreasing `created_at` order, and the new one lands after all versions with an equal timestamp |
| SharedDocs.InsertFreshKeepsHistoryValid | src/contexts/SharedDocsContext.tsx:132-138 | sorting in a version whose id is new keeps a history sorted and free of duplicate ids |
| SharedDocs.InsertFreshDistinct | src/contexts/SharedDocsContext.tsx:128-138 | inserting a version whose id is new keeps the ids distinct |
| SharedDocs.AddVersionPreservesStoreValid | src/contexts/SharedDocsContext.tsx:121-141 | every history stays under its own address, non-empty, sorted and free of duplicate ids |
| SharedDocs.IngestPreservesStoreValid | src/contexts/SharedDocsContext.tsx:102-143 | ingestion preserves that store invariant |
| SharedDocs.LatestVersionIsNewest | src/utils/helpers.ts:10-12 | in a valid store, getLatestVersion of a history is its newest version |
| SharedDocs.NonEmptyEntries | src/contexts/SharedDocsContext.tsx:73-74 | the entries that have an element 0, in order |
| SharedDocs.AddressPart | src/contexts/SharedDocsContext.tsx:73-91 | exactly one part per entry with an element 0, in list order: part k is part i of entry k's address, or undefined when that address has too few parts, because the filter only drops null |
| SharedDocs.SubscriptionFor | src/contexts/SharedDocsContext.tsx:64-101 | an open subscription captures the list, and its filter is `#d` = part 2 and `authors` = part 1 of every non-empty entry, with kinds [33457] |
| SharedDocs.AddressPartCount | src/contexts/SharedDocsContext.tsx:93 | the part lists are empty exactly when every entry is empty |
| SharedDocs.SubscriptionOpensIffSomeEntry | src/contexts/SharedDocsContext.tsx:71-101 | a subscription opens exactly when some entry is non-empty |
| SharedDocs.ReduceLatestIsLatestOf | src/contexts/SharedDocsContext.tsx:168-170 | the reduce picks the greatest `created_at`, the earliest delivered on ties |
| SharedDocs.SharedPagesProvider.constructor | src/contexts/SharedDocsContext.tsx:41-57 | the initial state is an empty list, loading, no histories and no subscription |
| SharedDocs.SharedPagesProvider.OnEvent | src/contexts/SharedDocsContext.tsx:102-143 | with an open subscription the histories become the ingestion of the event, keeping the store invariant |
| SharedDocs.SharedPagesProvider.FetchSharedDocuments | src/contexts/SharedDocsContext.tsx:64-101 | closes the old subscription and opens the one the list calls for |
| SharedDocs.RefreshKeepsSubscriptionInStep | src/contexts/SharedDocsContext.tsx:148-195 | refresh leaves either the subscription it started with or the one for the list it leaves |
| SharedDocs.SharedPagesProvider.Refresh | src/contexts/SharedDocsContext.tsx:148-195 | the new list and subscription are RefreshOutcome of the old ones: no signer leaves both unchanged; no events gives `[]`; otherwise the latest event is decrypted, where a rejection leaves the list unchanged, an empty plaintext gives `[]`, and any other plaintext is parsed (`[]` when parsing fails) and fetched; loading ends false |
| SharedDocs.SharedPagesProvider.AddSharedDoc | src/contexts/SharedDocsContext.tsx:218-248 | no signer is NoSigner with no effect; the updated list is serialized and encrypted to the signer's own key, a failed encryption is SignerFailed with no effect; the template is kind 11234, no tags, the time in seconds and the ciphertext; a refused signature is SignerFailed after the request; otherwise exactly that signed event is published and only then the updated list is stored |
| SharedDocs.SharedPagesProvider.SessionChanged | src/contexts/SharedDocsContext.tsx:197-214 | signing out clears the list, the histories and the subscription; signing in leaves the histories alone and gives the refresh outcome from the old list with the subscription already closed by the cleanup |
| Encryption.EncryptContent | src/utils/encryption.ts:5-28 | with a view key it encrypts under the view key's self conversation key and never consults the signer; without one it asks the signer to encrypt to its own key, and a missing signer, a rejection or an empty ciphertext is an error |
| Encryption.ViewKeyEncryptionRoundTrips | src/utils/encryption.ts:9-15 | content encrypted to a view key decrypts back under it |
| Encryption.ViewKeyIgnoresSigner | src/utils/encryption.ts:9-15 | with a view key the result does not depend on the signer |
| Encryption.SignerPathErrors | src/utils/encryption.ts:17-27 | a failing or empty signer encryption is an error, never an empty ciphertext |
| MakeTag.MakeTag | src/utils/makeTag.ts:1-8 | the output length equals the number of words, so zero words give "" |
| MakeTag.MakeTagIsAlphaNumeric | src/utils/makeTag.ts:2-7 | character i is `chars[words[i] % 62]`, a letter or a digit |
| MakeTag.EveryAlphaNumericTagIsReachable | src/utils/makeTag.ts:7 | every string of letters and digits is the tag of some words |
| MakeTag.MakeTagDependsOnResidues | src/utils/makeTag.ts:7 | only each word's residue modulo 62 matters |
| MakeTag.AlphabetIsTheLiteral | src/utils/makeTag.ts:2-3 | the alphabet is "a".."z", then "A".."Z", then "0".."9" |
| MakeTag.AlphabetIsAlphaNumeric | src/utils/makeTag.ts:2-3 | every alphabet entry is a letter or a digit |
| MakeTag.AlphabetIndex | src/utils/makeTag.ts:2-3 | every letter and digit appears in the alphabet |
| DocumentContext.InitialState | src/contexts/DocumentContext.tsx:19-22 | initially no documents and no selection |
| DocumentContext.AddDocument | src/contexts/DocumentContext.tsx:24-26 | the old list followed by the new document, with no deduplication |
| DocumentContext.UpdateDocument | src/contexts/DocumentContext.tsx:28-31 | length and order are kept; each document with the id gets the new content and keeps every other field; the others are unchanged |
| DocumentContext.UpdateTwiceIsLastUpdate | src/contexts/DocumentContext.tsx:28-31 | the later of two updates wins, so an update is idempotent |
| DocumentContext.UpdateAfterAdd | src/contexts/DocumentContext.tsx:24-31 | update distributes over add |
| RelayContext.UserRelayUrls | src/contexts/RelayContext.tsx:42-44 | the values of the "r" tags: at most one per tag |
| RelayContext.UserRelayUrlsAppend | src/contexts/RelayContext.tsx:42-44 | the values are taken in tag order |
| RelayContext.UserRelayUrlsEmpty | src/contexts/RelayContext.tsx:42-46 | the list is empty exactly when there is no "r" tag |
| RelayContext.NewestFirstHeadIsLatest | src/contexts/RelayContext.tsx:41-42 | after the stable descending sort the first result is the newest list, the earliest delivered on ties |
| RelayContext.SelectRelaysRule | src/contexts/RelayContext.tsx:35-61 | user relays, with the flag set, exactly when the newest result has an "r" tag; otherwise, also on a query error, the defaults with the flag clear |
| RelayContext.RelayProvider.constructor | src/contexts/RelayContext.tsx:22-23 | starts on the default relays (src/nostr/relayPool.ts:10-14) with the flag clear |
| RelayContext.RelayProvider.UserChanged | src/contexts/RelayContext.tsx:26-64 | logged out resets to the defaults; logged in applies the selection rule |
| Events.CharValueOfEncodeChar | src/nostr/events.ts:13 | the RFC 4648 section 4 alphabet is decoded by its inverse |
| Events.SextetsLength | src/nostr/events.ts:13 | four sextets per complete three-byte group, and one more than the leftover bytes for a partial group |
| Events.Base64EncodeLength | src/nostr/events.ts:13 | the encoding has length `4*ceil(n/3)` |
| Events.StripWhitespaceRemovesExactlyWhitespace | src/nostr/events.ts:17 | after `atob`'s white-space removal no ASCII white space is left, a character survives exactly when it is not white space, and a string without white space is unchanged |
| Events.StripWhitespaceAppend | src/nostr/events.ts:17 | removal keeps the order: stripping a concatenation is the concatenation of the stripped parts |
| Events.ForgivingDecode | src/nostr/events.ts:17 | `atob` decoding: ASCII white space is removed, then one or two trailing "=" are stripped when the remaining length is a multiple of four; the input is accepted exactly when the rest is all base64 characters and its length mod 4 is not 1 |
| Events.BinaryString | src/nostr/events.ts:9-12 | one character per byte, with char code equal to the byte |
| Events.CharCodes | src/nostr/events.ts:17-21 | one byte per character, equal to its char code |
| Events.Btoa | src/nostr/events.ts:13 | `btoa` accepts exactly the binary strings |
| Events.Atob | src/nostr/events.ts:17 | `atob` yields a binary string exactly when the input decodes |
| Events.Base64RoundTrip | src/nostr/events.ts:8-23 | decoding inverts encoding |
| Events.UnpaddedDecodes | src/nostr/events.ts:17 | the unpadded "QQ" decodes to [65] |
| Events.SpacedDecodes | src/nostr/events.ts:17 | "Q Q==" decodes to [65]: white space is dropped, padding stripped |
| Events.SingleCharRejected | src/nostr/events.ts:17 | "Q" is rejected: its length leaves remainder 1 modulo 4 |
| Events.Uint8ToBase64 | src/nostr/events.ts:8-14 | the loop builds the binary string, and the result is its base64 encoding |
| Events.Base64ToUint8 | src/nostr/events.ts:16-23 | a fresh array holding the decoded bytes, or an exception when `atob` rejects |
| Events.RoundTrip | src/nostr/events.ts:3-23 | `base64ToUint8(uint8ToBase64(u8))` has the contents of `u8` |
| App.OnTitleChange | src/App.tsx:12-16 | the id has at most fifteen characters |
| App.OnTitleChangeIsReplacedPrefix | src/App.tsx:13-14 | the id is the title with every space replaced by "-", cut to fifteen characters |
| App.OnTitleChangeHasNoSpace | src/App.tsx:13-14 | the id has no space |
| App.ShortSpacelessTitleIsItsId | src/App.tsx:13-14 | a short title without spaces is its own id |
| ShareLink.ViewKeyUsed | src/components/editor/utils.ts:35 | the supplied view key when it is non-empty, otherwise a fresh one |
| ShareLink.EditKeyUsed | src/components/editor/utils.ts:36-40 | an edit key exists exactly when editing is granted; the supplied one is reused, otherwise a fresh one |
| ShareLink.SharedTemplate | src/components/editor/utils.ts:42-54 | kind 33457, the single tag `["d", selectedDocumentId]`, and the content encrypted under the view key's self conversation key |
| ShareLink.PublishSharedCopy | src/components/editor/utils.ts:29-64 | no selection, or empty content, gives undefined with no effect; a missing signer rejects; the copy is signed with the edit key when there is one, otherwise by the signer, and then published |
| ShareLink.HandleGeneratePrivateLink | src/components/editor/utils.ts:21-102 | as written: without edit rights the link carries only the view key and names the copy by the signed pubkey and the same identifier; with edit rights the copy is published, then the deletion throws a TypeError, and no link is returned |
| ShareLink.HandleGeneratePrivateLinkCorrected | src/components/editor/utils.ts:78-84 | deletion of the selected address after the publish; the link, carrying both keys, is returned exactly when that deletion is signed |
| ShareLink.SharedCopyOfAddressIsUnparseable | src/components/editor/utils.ts:51 | with a full address as the selected id, the copy's own address has five parts and parseAddress rejects it |
| ShareLink.SharedCopyIsReadableWithViewKey | src/contexts/SharedDocsContext.tsx:103-120 | a list entry holding the view key for the copy's address admits the copy with its original content |
| DocEditorController.SnapshotIdentifier | src/components/editor/DocEditorController.tsx:130 | the third colon-separated part when there is one |
| DocEditorController.SnapshotTemplate | src/components/editor/DocEditorController.tsx:134-140 | kind 33457, the single d tag, the encrypted content, the signer's pubkey and the time in seconds |
| DocEditorController.SavedRevisionShape | src/components/editor/DocEditorController.tsx:130-153 | the revision a completed save publishes, signed with the edit key or by an honest signer, is a kind-33457 event stored before it is published, whose only tag is the d tag of the address's third part, with the encrypted content and the time in seconds |
| DocEditorController.SaveSnapshot | src/components/editor/DocEditorController.tsx:124-154 | no signer rejects, even with an edit key; encryption errors and an empty ciphertext reject; the revision is signed with the edit key when present, otherwise by the signer; it is added to the store and then published; it succeeds exactly when it publishes, and exactly when the effects are those of a saved revision of the content at the address |
| DocEditorController.SnapshotKeepsAddress | src/components/editor/DocEditorController.tsx:130-136 | a revision of an existing address, signed by its author, has that same address |
| DocEditorController.SnapshotOfMalformedAddressIsUnaddressable | src/components/editor/DocEditorController.tsx:130-136 | an address with fewer than three parts yields a revision that has no address |
| DocEditorController.DraftPubkey | src/components/editor/DocEditorController.tsx:162-167 | the edit key's public key when there is one, otherwise the signer's |
| DocEditorController.TagHasNoColon | src/utils/makeTag.ts:2-7 | a generated tag has no colon |
| DocEditorController.DraftAddressParses | src/components/editor/DocEditorController.tsx:168 | a new document's address parses back into 33457, its pubkey and its tag |
| DocEditorController.SaveNewDocument | src/components/editor/DocEditorController.tsx:160-179 | mints a 6-character tag and selects `33457:<pubkey>:<tag>` before the snapshot, so the selection survives a failed save; on success the effects before the navigation are those of a saved revision of the content at the selected address, then it navigates to the naddr and returns the tag; with the edit key, or an honest signer, the saved revision's address is the selected one |
| DocEditorController.DeleteAndRemove | src/components/editor/DocEditorController.tsx:240-253 | removeDocument follows deleteEvent only when the deletion succeeded; without an address the deletion throws a TypeError |
| DocEditorController.FindVersion | src/components/editor/DocEditorController.tsx:106-108 | the first version with the id, or none when no version has it |
| DocEditorController.Controller.CurrentHistory | src/components/editor/DocEditorController.tsx:42 | the history of a non-empty selected id present in the store |
| DocEditorController.Controller.ActiveVersion | src/components/editor/DocEditorController.tsx:49 | the newest version of that history |
| DocEditorController.Controller.constructor | src/components/editor/DocEditorController.tsx:41-67 | the buffer and the last saved content are the active version's content, or "" without one; a draft opens in edit mode and a document in preview |
| DocEditorController.Controller.Render | src/components/editor/DocEditorController.tsx:90-96 | when the active version id changed, the active version is loaded into both the buffer and the last saved content |
| DocEditorController.Controller.StoreChanged | src/components/editor/DocEditorController.tsx:90-96 | a new store snapshot, followed by that effect |
| DocEditorController.Controller.Edit | src/components/editor/DocEditorController.tsx:282-286 | the buffer takes the editor's value |
| DocEditorController.Controller.ToggleMode | src/components/editor/DocEditorController.tsx:263 | switches between edit and preview |
| DocEditorController.Controller.HandleSelectVersion | src/components/editor/DocEditorController.tsx:98-101 | remembers the version and opens the confirmation |
| DocEditorController.Controller.CancelHistoricalVersion | src/components/editor/DocEditorController.tsx:329-332 | closes the confirmation and forgets the version |
| DocEditorController.Controller.ApplyHistoricalVersion | src/components/editor/DocEditorController.tsx:103-118 | nothing happens without a history, a pending id, or a version with that id; otherwise that version is put into the buffer and the last saved content, so an immediate save is a no-op, and the editor goes to preview |
| DocEditorController.Controller.HandleSave | src/components/editor/DocEditorController.tsx:189-196 | a no-op while a save is in flight or when the buffer equals the last saved content; otherwise `saving` is set and the job captures the buffer and the selection |
| DocEditorController.SaveContent | src/components/editor/DocEditorController.tsx:180-202 | a draft is saved as a new document, whose effects up to the closing navigation are a saved revision at its new address; otherwise the appended effects are exactly a saved revision at the selected address; it succeeds exactly when it publishes |
| DocEditorController.Controller.SettleSave | src/components/editor/DocEditorController.tsx:197-218 | the appended effects are a saved revision of the job's content at the selected address (for a draft, at its new address, followed by the navigation); the last saved content changes only on success; the toast reports the outcome; `saving` is cleared either way; a draft's selection is set even when the save fails |
| DocEditorController.Controller.FinishSave | src/components/editor/DocEditorController.tsx:204-218 | success records the content as last saved, with a success toast unless silent; failure shows the error toast; the save is no longer in flight |
| DocEditorController.Controller.CloseToast | src/components/editor/DocEditorController.tsx:298 | closes the toast, keeping its message |
| DocEditorController.Controller.HandleDelete | src/components/editor/DocEditorController.tsx:240-253 | as written: without skipPrompt it opens the confirmation; with it, deleteEvent throws a TypeError and removeDocument is never reached |
| DocEditorController.Controller.ConfirmDelete | src/components/editor/DocEditorController.tsx:308-317 | as written: closes the dialog, then fails in the same way |
| DocEditorController.Controller.CancelDelete | src/components/editor/DocEditorController.tsx:318-320 | closes the dialog |
| DocEditorController.Controller.ConfirmDeleteCorrected | src/components/editor/DocEditorController.tsx:308-317 | deletion of the selected address; the document is removed from the store exactly when the deletion request was signed and published |
| DocEditorController.Controller.Share | src/components/editor/DocEditorController.tsx:338-347 | the outcome of handleGeneratePrivateLink for the selected id, the active version's content and the given origin: no selection or no content returns null, no signer is an error; without edit rights the copy is signed and published and the view-key link for that id is returned; with them the copy is published, then the deletion throws a TypeError and no link is returned |

## Left out

- Relay transport is not modelled: subscriptions, `querySync` and publishing. Delivered events are finite input sequences. A publish is an effect that always succeeds, because `publishEvent` settles every relay.
- Cryptography and codecs are uninterpreted, with no round trip proved for them: NIP-44, `getConversationKey`, `finalizeEvent`, `getPublicKey`, hex conversion, `naddrEncode` and `encodeNKeys`. NIP-44 encryption draws a fresh random nonce on every call, but in the model `encrypt`, and a signer's `nip44Encrypt`, is a deterministic function of key and plaintext. So a predicate such as DocEditorController.SavedRevision names one particular ciphertext where the source could produce any of many. No proved property depends on two encryptions being equal.
- `hexToBytes` throwing on invalid hex is not modelled.
- A signer whose `getPublicKey` rejects, or that lacks `nip44Encrypt`/`nip44Decrypt`, is not modelled. A signer's public key is a fixed field.
- `JSON.parse` and `JSON.stringify` are parameters. A parse that yields a JSON value other than a list of string lists is not modelled.
- Only the effects of the map-based store's `addDocument` and `removeDocument` are modelled, not their internals.
- The ingest callback mutates the shared history object in place (`history.versions = ...`). The model builds a new history value, so aliasing between the old and the new map is not captured.
- `fetchAllDocuments` resolves with `Object.values(grouped)`. The model returns the map itself, so the property order and prototype keys of a JavaScript object are not captured.
- Event kinds are unbounded naturals. Numbers beyond 2^53 are not modelled.
- React is not modelled: `setState` batching, stale closures, `requestAnimationFrame` selection handling, and the mode, share and confirmation toggles beyond the flags kept. Each handler is one atomic step, and handleSave is split at its first await.
- `handleSave`'s `silent` parameter is kept. The autosave interval is commented out in the source.
- App.OnTitleChange: strings are sequences of Unicode scalar values, so `substring(0, 15)` is modelled as the first fifteen characters, not the first fifteen UTF-16 code units. A title with a character outside the Basic Multilingual Plane before position 15 gives a different id, possibly with a split surrogate pair in the source.
- App.Prefix: counts characters as Unicode scalar values, not UTF-16 code units, for the same reason.
- The `buildTag` list in handleGeneratePrivateLink is built but never used, because its `addSharedDoc` call is commented out. Only the getPublicKey call that builds it is an effect, and that call is not modelled.
- A `d` tag whose value is undefined (`["d", address.split(":")[2]]` for an address with fewer than three parts) is modelled as a tag without a value.
- DocEditorController.SaveSnapshot: the source reads the clock once per call. Each model method takes one clock reading as a parameter.
- DocEditorController.SaveNewDocument: `crypto.getRandomValues` is a parameter, the six words.
- ShareLink.PublishSharedCopy: fresh `generateSecretKey` results are parameters, used only when no key is supplied.
- DocEditorController.Controller.Share: the `window.location.origin` part of the link is a parameter.
- The following files are not part of this model: crdt.ts, timeout.ts, fetchProfile.ts, fetchDelete.ts, the signer and login code, and the UI components.
- `handleSharePublic` is a stub that only logs, and is not modelled.

## Findings

| source | as written | input that shows it | evidently intended | confidence | as-written member | corrected member |
|---|---|---|---|---|---|---|
| src/components/editor/utils.ts:78-84 | `deleteEvent` is called with `{eventKind, eventId}`, but it reads `address`, so `parseAddress(undefined)` throws a TypeError after the copy was published, and no edit link is ever returned | canEdit = true, any selected id, non-empty content, any signer | `deleteEvent({address: selectedDocumentId, ...})`, and the link carrying the edit key is returned once the deletion is signed | not executed | ShareLink.HandleGeneratePrivateLink | ShareLink.HandleGeneratePrivateLinkCorrected |
| src/components/editor/DocEditorController.tsx:240-253 | the editor's delete action makes the same call, so the deletion throws before any signer call and `removeDocument` is never reached | skipPrompt = true, or confirming the dialog, for any selected document | `deleteEvent({address: selectedDocumentId, ...})` followed by `removeDocument` | not executed | DocEditorController.Controller.HandleDelete | DocEditorController.Controller.ConfirmDeleteCorrected |
