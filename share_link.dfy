/** handleGeneratePrivateLink: publishing an encrypted copy of a document
    under a view key (and optionally an edit key) and building the link that
    carries those keys. */
module ShareLink {

  import opened Nostr
  import opened Strings
  import opened Helpers
  import opened DeleteRequest
  import opened SharedDocs
  import opened Encryption

  /** The view key: the supplied one when non-empty, otherwise a fresh secret. */
  function ViewKeyUsed(c: Crypto, viewKey: Option<string>, freshView: Bytes): (k: Bytes)
    ensures Present(viewKey) ==> k == c.hexToBytes(viewKey.value)
    ensures !Present(viewKey) ==> k == freshView
  {
    if Present(viewKey) then c.hexToBytes(viewKey.value) else freshView
  }

  /** The edit key: none unless editing is granted; then the supplied one
      when non-empty, otherwise a fresh secret. */
  function EditKeyUsed(c: Crypto, canEdit: bool, editKey: Option<string>, freshEdit: Bytes): (k: Option<Bytes>)
    ensures k.Some? <==> canEdit
    ensures canEdit && Present(editKey) ==> k == Some(c.hexToBytes(editKey.value))
    ensures canEdit && !Present(editKey) ==> k == Some(freshEdit)
  {
    if canEdit then Some(if Present(editKey) then c.hexToBytes(editKey.value) else freshEdit) else None
  }

  /** The shared copy before signing: kind 33457, content encrypted to the
      view key, the single tag `["d", identifier]`, no pubkey. */
  function SharedTemplate(c: Crypto, identifier: string, content: string, view: Bytes, nowMs: int): (t: Template)
    ensures t.kind == KIND_FILE && t.tags == [["d", identifier]] && t.pubkey.None?
    ensures t.content == c.encrypt(content, SelfConversationKey(c, view)) && t.createdAt == Seconds(nowMs)
  {
    Template(KIND_FILE, None, Seconds(nowMs), [["d", identifier]], c.encrypt(content, SelfConversationKey(c, view)))
  }

  /** `${origin}/doc/${naddr}#${nkeys}`: the address of the copy, then the
      keys, the edit key only when there is one. */
  function ShareUrl(c: Crypto, origin: string, pubkey: string, identifier: string, view: Bytes, edit: Option<Bytes>): string
  {
    origin + "/doc/" + c.naddrEncode(KIND_FILE, pubkey, identifier) + "#"
      + c.encodeNKeys(c.bytesToHex(view), if edit.Some? then Some(c.bytesToHex(edit.value)) else None)
  }

  /** The steps up to and including publishing the copy. `r` is Ok(None)
      where the source returns early without a link, Ok(Some(signed)) once
      the copy is published. */
  method PublishSharedCopy(c: Crypto, canEdit: bool, selectedDocumentId: Option<string>, docContent: Option<string>,
                           viewKey: Option<string>, editKey: Option<string>, signer: Option<Signer>,
                           freshView: Bytes, freshEdit: Bytes, nowMs: int)
    returns (r: Result<Option<Event>>, effects: seq<Effect>)
    ensures !Present(selectedDocumentId) ==> r == Ok(None) && effects == []
    ensures Present(selectedDocumentId) && signer.None? ==> r == Err(NoSigner) && effects == []
    ensures Present(selectedDocumentId) && signer.Some? && !Present(docContent) ==> r == Ok(None) && effects == []
    ensures Present(selectedDocumentId) && signer.Some? && Present(docContent) ==>
              var view := ViewKeyUsed(c, viewKey, freshView);
              var edit := EditKeyUsed(c, canEdit, editKey, freshEdit);
              var t := SharedTemplate(c, selectedDocumentId.value, docContent.value, view, nowMs);
              if edit.Some? then
                var signed := FinalizeEvent(c, t, edit.value);
                r == Ok(Some(signed)) && effects == [Publish(signed)]
              else
                match signer.value.signEvent(t)
                case None => r == Err(SignerFailed) && effects == [SignRequest(t)]
                case Some(signed) => r == Ok(Some(signed)) && effects == [SignRequest(t), Publish(signed)]
    ensures r.Ok? && r.value.Some? ==> effects[|effects| - 1] == Publish(r.value.value)
  {
    effects := [];
    if !Present(selectedDocumentId) {
      return Ok(None), effects;
    }
    if signer.None? {
      return Err(NoSigner), effects;
    }
    var s := signer.value;
    if !Present(docContent) {
      return Ok(None), effects;
    }
    var viewKeyUsed := ViewKeyUsed(c, viewKey, freshView);
    var editKeyUsed := EditKeyUsed(c, canEdit, editKey, freshEdit);
    var sharedEvent := SharedTemplate(c, selectedDocumentId.value, docContent.value, viewKeyUsed, nowMs);
    var signedEvent: Event;
    if editKeyUsed.Some? {
      signedEvent := FinalizeEvent(c, sharedEvent, editKeyUsed.value);
    } else {
      effects := effects + [SignRequest(sharedEvent)];
      var signed := s.signEvent(sharedEvent);
      if signed.None? {
        return Err(SignerFailed), effects;
      }
      signedEvent := signed.value;
    }
    effects := effects + [Publish(signedEvent)];
    r := Ok(Some(signedEvent));
  }

  /** handleGeneratePrivateLink as written. `r` is Ok(None) for the early
      returns (undefined) and Ok(Some(url)) for a link. With an edit key the
      deletion is requested with an argument that has no `address`, so
      deleteEvent throws a TypeError after the copy has been published and no
      link is returned. */
  method HandleGeneratePrivateLink(c: Crypto, canEdit: bool, selectedDocumentId: Option<string>, docContent: Option<string>,
                                   viewKey: Option<string>, editKey: Option<string>, signer: Option<Signer>,
                                   freshView: Bytes, freshEdit: Bytes, nowMs: int, origin: string)
    returns (r: Result<Option<string>>, effects: seq<Effect>)
    ensures !Present(selectedDocumentId) ==> r == Ok(None) && effects == []
    ensures Present(selectedDocumentId) && signer.None? ==> r == Err(NoSigner) && effects == []
    ensures Present(selectedDocumentId) && signer.Some? && !Present(docContent) ==> r == Ok(None) && effects == []
    ensures Present(selectedDocumentId) && signer.Some? && Present(docContent) ==>
              var view := ViewKeyUsed(c, viewKey, freshView);
              var t := SharedTemplate(c, selectedDocumentId.value, docContent.value, view, nowMs);
              if canEdit then
                var signed := FinalizeEvent(c, t, EditKeyUsed(c, canEdit, editKey, freshEdit).value);
                r == Err(TypeError) && effects == [Publish(signed), DeleteInvoked(None)]
              else
                match signer.value.signEvent(t)
                case None => r == Err(SignerFailed) && effects == [SignRequest(t)]
                case Some(signed) =>
                  && r == Ok(Some(ShareUrl(c, origin, signed.pubkey, selectedDocumentId.value, view, None)))
                  && effects == [SignRequest(t), Publish(signed)]
    ensures canEdit ==> r.Err? || r == Ok(None)
  {
    var published;
    published, effects := PublishSharedCopy(c, canEdit, selectedDocumentId, docContent, viewKey, editKey, signer,
                                            freshView, freshEdit, nowMs);
    if published.Err? {
      return Err(published.error), effects;
    }
    if published.value.None? {
      return Ok(None), effects;
    }
    var signedEvent := published.value.value;
    var viewKeyUsed := ViewKeyUsed(c, viewKey, freshView);
    var editKeyUsed := EditKeyUsed(c, canEdit, editKey, freshEdit);
    if editKeyUsed.Some? {
      var deleted, deleteEffects := DeleteEvent(None, Some(DEFAULT_REASON), signer, nowMs);
      effects := effects + deleteEffects;
      if deleted.Err? {
        return Err(deleted.error), effects;
      }
    }
    r := Ok(Some(ShareUrl(c, origin, signedEvent.pubkey, selectedDocumentId.value, viewKeyUsed, editKeyUsed)));
  }

  /** The evidently intended flow: the deletion names the selected document's
      address. Without an edit key it is the flow as written; with one, the
      link (carrying the edit key) is returned exactly when the deletion
      request is signed, and it is published after the copy. */
  method HandleGeneratePrivateLinkCorrected(c: Crypto, canEdit: bool, selectedDocumentId: Option<string>, docContent: Option<string>,
                                            viewKey: Option<string>, editKey: Option<string>, signer: Option<Signer>,
                                            freshView: Bytes, freshEdit: Bytes, nowMs: int, origin: string)
    returns (r: Result<Option<string>>, effects: seq<Effect>)
    ensures !Present(selectedDocumentId) ==> r == Ok(None) && effects == []
    ensures Present(selectedDocumentId) && signer.None? ==> r == Err(NoSigner) && effects == []
    ensures Present(selectedDocumentId) && signer.Some? && !Present(docContent) ==> r == Ok(None) && effects == []
    ensures Present(selectedDocumentId) && signer.Some? && Present(docContent) && !canEdit ==>
              var view := ViewKeyUsed(c, viewKey, freshView);
              var t := SharedTemplate(c, selectedDocumentId.value, docContent.value, view, nowMs);
              match signer.value.signEvent(t)
              case None => r == Err(SignerFailed) && effects == [SignRequest(t)]
              case Some(signed) =>
                && r == Ok(Some(ShareUrl(c, origin, signed.pubkey, selectedDocumentId.value, view, None)))
                && effects == [SignRequest(t), Publish(signed)]
    ensures Present(selectedDocumentId) && signer.Some? && Present(docContent) && canEdit ==>
              var view := ViewKeyUsed(c, viewKey, freshView);
              var edit := EditKeyUsed(c, canEdit, editKey, freshEdit).value;
              var signed := FinalizeEvent(c, SharedTemplate(c, selectedDocumentId.value, docContent.value, view, nowMs), edit);
              && |effects| >= 2 && effects[0] == Publish(signed) && effects[1] == DeleteInvoked(selectedDocumentId)
              && (r.Ok? <==> DeleteSucceeds(selectedDocumentId.value, DEFAULT_REASON, signer.value, nowMs))
              && (r.Ok? ==> r.value == Some(ShareUrl(c, origin, signed.pubkey, selectedDocumentId.value, view, Some(edit)))
                            && |effects| == 4 && effects[3].Publish?)
  {
    var published;
    published, effects := PublishSharedCopy(c, canEdit, selectedDocumentId, docContent, viewKey, editKey, signer,
                                            freshView, freshEdit, nowMs);
    if published.Err? {
      return Err(published.error), effects;
    }
    if published.value.None? {
      return Ok(None), effects;
    }
    var signedEvent := published.value.value;
    var viewKeyUsed := ViewKeyUsed(c, viewKey, freshView);
    var editKeyUsed := EditKeyUsed(c, canEdit, editKey, freshEdit);
    if editKeyUsed.Some? {
      var deleted, deleteEffects := DeleteEvent(selectedDocumentId, Some(DEFAULT_REASON), signer, nowMs);
      effects := effects + deleteEffects;
      if deleted.Err? {
        return Err(deleted.error), effects;
      }
    }
    r := Ok(Some(ShareUrl(c, origin, signedEvent.pubkey, selectedDocumentId.value, viewKeyUsed, editKeyUsed)));
  }

  /** The shared copy takes the selected id verbatim as its identifier. The
      controller passes a full `33457:<pubkey>:<d>` address, so the copy's own
      address has five colon-separated parts and parseAddress rejects it. */
  lemma SharedCopyOfAddressIsUnparseable(c: Crypto, signed: Event, pubkey: string, d: string, content: string,
                                         view: Bytes, nowMs: int, edit: Bytes)
    requires ':' !in pubkey && ':' !in d && ':' !in c.getPublicKey(edit)
    requires signed == FinalizeEvent(c, SharedTemplate(c, FormatAddress(KIND_FILE, pubkey, d), content, view, nowMs), edit)
    ensures GetEventAddress(signed).Some?
    ensures |Split(GetEventAddress(signed).value, ':')| == 5
    ensures ParseAddress(GetEventAddress(signed).value).None?
  {
    var sel := FormatAddress(KIND_FILE, pubkey, d);
    var kindStr := IntToString(KIND_FILE);
    IntToStringHasNoColon(KIND_FILE);
    assert DTagValue(signed.tags) == Some(sel);
    var spk := signed.pubkey;
    var full := FormatAddress(KIND_FILE, spk, sel);
    assert full == kindStr + [':'] + (spk + [':'] + sel);
    SplitAtFirst(kindStr, ':', spk + [':'] + sel);
    SplitAtFirst(spk, ':', sel);
    FormatAddressSplits(KIND_FILE, pubkey, d);
  }

  /** Anyone holding the view key can read the copy: a shared-documents list
      entry for the copy's address whose key decodes to the view key admits
      the copy with the original content. */
  lemma SharedCopyIsReadableWithViewKey(c: Crypto, signed: Event, identifier: string, content: string,
                                        view: Bytes, nowMs: int, edit: Bytes, entries: EntryList, viewHex: string)
    requires CipherRoundTrips(c)
    requires identifier != "" && viewHex != "" && c.hexToBytes(viewHex) == view
    requires signed == FinalizeEvent(c, SharedTemplate(c, identifier, content, view, nowMs), edit)
    requires |entries| > 0 && entries[0] == [FormatAddress(KIND_FILE, signed.pubkey, identifier), viewHex]
    ensures Admit(entries, c, signed) == Some((FormatAddress(KIND_FILE, signed.pubkey, identifier), content))
  {
    assert DTagValue(signed.tags) == Some(identifier);
  }
}
