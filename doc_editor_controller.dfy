/** The document editor controller: the editing buffer, the save flow that
    publishes a new encrypted revision, the historical-version flow, deletion
    and the private-link share action. */
module DocEditorController {

  import opened Nostr
  import opened Strings
  import opened Helpers
  import opened DeleteRequest
  import opened Encryption
  import opened Tags = MakeTag
  import opened ShareLink

  /** A signer that stamps its own public key and signs the template it was
      given, all other fields unchanged. */
  predicate Stamped(e: Event, t: Template, pubkey: string)
  {
    e.pubkey == pubkey && e.kind == t.kind && e.tags == t.tags
    && e.content == t.content && e.createdAt == t.createdAt
  }

  ghost predicate SignsFaithfully(s: Signer)
  {
    forall t: Template :: s.signEvent(t).Some? ==> Stamped(s.signEvent(t).value, t, s.pubkey)
  }

  /** `address.split(":")?.[2]`: the third colon-separated part, if any. */
  function SnapshotIdentifier(address: string): (d: Option<string>)
    ensures d.Some? <==> |Split(address, ':')| >= 3
    ensures d.Some? ==> d.value == Split(address, ':')[2]
  {
    var parts := Split(address, ':');
    if |parts| >= 3 then Some(parts[2]) else None
  }

  /** `["d", dTag]`; an undefined value leaves the tag without one. */
  function DTag(d: Option<string>): (t: Tag)
    ensures |t| > 0 && t[0] == "d"
    ensures d.Some? ==> t == ["d", d.value]
    ensures d.None? ==> |t| == 1
  {
    if d.Some? then ["d", d.value] else ["d"]
  }

  /** The revision saved for an address: kind 33457, the single d tag, the
      encrypted content, the signer's public key and the time in seconds. */
  function SnapshotTemplate(d: Option<string>, content: string, pubkey: string, nowMs: int): (t: Template)
    ensures t.kind == KIND_FILE && t.tags == [DTag(d)] && t.content == content
    ensures t.pubkey == Some(pubkey) && t.createdAt == Seconds(nowMs)
  {
    Template(KIND_FILE, Some(pubkey), Seconds(nowMs), [DTag(d)], content)
  }

  /** The effects of a completed saveSnapshotWithAddress of `content` at
      `address`: the content encrypted to a non-empty ciphertext, the
      revision template for the address's third part, then the event
      finalized with the edit key, or requested from the signer, stored and
      published. None when the encryption or the signer gives nothing. */
  function RevisionEffects(c: Crypto, viewKey: Option<string>, editKey: Option<string>, s: Signer,
                           address: string, content: string, nowMs: int): Option<seq<Effect>>
  {
    var enc := EncryptContent(c, content, viewKey, Some(s));
    if enc.Err? || enc.value == "" then None
    else
      var t := SnapshotTemplate(SnapshotIdentifier(address), enc.value, s.pubkey, nowMs);
      if Present(editKey) then
        var signed := FinalizeEvent(c, t, c.hexToBytes(editKey.value));
        Some([AddDocument(signed), Publish(signed)])
      else if s.signEvent(t).None? then None
      else Some([SignRequest(t), AddDocument(s.signEvent(t).value), Publish(s.signEvent(t).value)])
  }

  predicate SavedRevision(c: Crypto, viewKey: Option<string>, editKey: Option<string>, s: Signer,
                          address: string, content: string, nowMs: int, effects: seq<Effect>)
  {
    RevisionEffects(c, viewKey, editKey, s, address, content, nowMs) == Some(effects)
  }

  /** The published revision of a completed save, finalized with the edit key
      or signed faithfully, is a kind-33457 event whose only tag is the d tag
      of the address's third part and whose content is the ciphertext. */
  lemma SavedRevisionShape(c: Crypto, viewKey: Option<string>, editKey: Option<string>, s: Signer,
                           address: string, content: string, nowMs: int, effects: seq<Effect>)
    requires SavedRevision(c, viewKey, editKey, s, address, content, nowMs, effects)
    requires Present(editKey) || SignsFaithfully(s)
    ensures var ev := effects[|effects| - 1].event;
            && effects[|effects| - 1].Publish? && effects[|effects| - 2] == AddDocument(ev)
            && ev.kind == KIND_FILE && ev.tags == [DTag(SnapshotIdentifier(address))]
            && ev.content == EncryptContent(c, content, viewKey, Some(s)).value
            && ev.createdAt == Seconds(nowMs)
  {
    var enc := EncryptContent(c, content, viewKey, Some(s));
    var t := SnapshotTemplate(SnapshotIdentifier(address), enc.value, s.pubkey, nowMs);
    if !Present(editKey) {
      assert Stamped(s.signEvent(t).value, t, s.pubkey);
    }
  }

  /** saveSnapshotWithAddress. A missing signer rejects first, even with an
      edit key, because getSigner throws. The content is encrypted (to the
      view key when there is one); an empty ciphertext is an error. The
      revision is signed with the edit key when there is one and by the
      signer otherwise, then added to the document store, then published. */
  method SaveSnapshot(c: Crypto, viewKey: Option<string>, editKey: Option<string>, signer: Option<Signer>,
                      address: string, content: string, nowMs: int)
    returns (r: Result<Event>, effects: seq<Effect>)
    ensures signer.None? ==> r == Err(NoSigner) && effects == []
    ensures signer.Some? ==>
              var enc := EncryptContent(c, content, viewKey, signer);
              if enc.Err? then r == Err(enc.error) && effects == []
              else if enc.value == "" then r == Err(EncryptionFailed) && effects == []
              else
                var t := SnapshotTemplate(SnapshotIdentifier(address), enc.value, signer.value.pubkey, nowMs);
                if Present(editKey) then
                  var signed := FinalizeEvent(c, t, c.hexToBytes(editKey.value));
                  r == Ok(signed) && effects == [AddDocument(signed), Publish(signed)]
                else
                  match signer.value.signEvent(t)
                  case None => r == Err(SignerFailed) && effects == [SignRequest(t)]
                  case Some(signed) => r == Ok(signed) && effects == [SignRequest(t), AddDocument(signed), Publish(signed)]
    ensures r.Ok? <==> PublishesAnything(effects)
    ensures r.Ok? <==> signer.Some? && SavedRevision(c, viewKey, editKey, signer.value, address, content, nowMs, effects)
    ensures r.Ok? ==> |effects| >= 2 && effects[|effects| - 2] == AddDocument(r.value)
                      && effects[|effects| - 1] == Publish(r.value)
  {
    effects := [];
    if signer.None? {
      return Err(NoSigner), effects;
    }
    var s := signer.value;
    var dTag := SnapshotIdentifier(address);
    var encrypted := EncryptContent(c, content, viewKey, signer);
    if encrypted.Err? {
      return Err(encrypted.error), effects;
    }
    if encrypted.value == "" {
      return Err(EncryptionFailed), effects;
    }
    var event := SnapshotTemplate(dTag, encrypted.value, s.pubkey, nowMs);
    var signed: Event;
    if Present(editKey) {
      signed := FinalizeEvent(c, event, c.hexToBytes(editKey.value));
    } else {
      effects := effects + [SignRequest(event)];
      var result := s.signEvent(event);
      if result.None? {
        assert effects == [SignRequest(event)];
        return Err(SignerFailed), effects;
      }
      signed := result.value;
    }
    effects := effects + [AddDocument(signed), Publish(signed)];
    assert effects[|effects| - 1].Publish?;
    r := Ok(signed);
  }

  /** A revision of an existing document, signed by its author, lands at the
      document's own address, so it joins the same history. */
  lemma SnapshotKeepsAddress(pubkey: string, d: string, template: Template, e: Event, content: string,
                             signerKey: string, nowMs: int)
    requires ':' !in pubkey && ':' !in d && d != ""
    requires template == SnapshotTemplate(SnapshotIdentifier(FormatAddress(KIND_FILE, pubkey, d)), content, signerKey, nowMs)
    requires Stamped(e, template, pubkey)
    ensures GetEventAddress(e) == Some(FormatAddress(KIND_FILE, pubkey, d))
  {
    FormatAddressSplits(KIND_FILE, pubkey, d);
    assert DTagValue(e.tags) == Some(d);
  }

  /** A revision saved for an address with fewer than three parts carries a
      d tag without a value, so it has no address of its own. */
  lemma SnapshotOfMalformedAddressIsUnaddressable(address: string, template: Template, e: Event,
                                                  content: string, signerKey: string, nowMs: int, pubkey: string)
    requires |Split(address, ':')| < 3
    requires template == SnapshotTemplate(SnapshotIdentifier(address), content, signerKey, nowMs)
    requires Stamped(e, template, pubkey)
    ensures GetEventAddress(e).None?
  {
    assert e.tags == [["d"]];
  }

  /** The public key a new document is filed under: the edit key's, else the
      signer's; None when there is neither. */
  function DraftPubkey(c: Crypto, editKey: Option<string>, signer: Option<Signer>): (pk: Option<string>)
    ensures Present(editKey) ==> pk == Some(c.getPublicKey(c.hexToBytes(editKey.value)))
    ensures !Present(editKey) ==> (pk.Some? <==> signer.Some?)
    ensures !Present(editKey) && signer.Some? ==> pk == Some(signer.value.pubkey)
  {
    if Present(editKey) then Some(c.getPublicKey(c.hexToBytes(editKey.value)))
    else if signer.Some? then Some(signer.value.pubkey)
    else None
  }

  /** A generated tag is six letters and digits, so it has no colon. */
  lemma TagHasNoColon(words: seq<Word>)
    ensures ':' !in MakeTag(words)
  {
    MakeTagIsAlphaNumeric(words);
    forall i | 0 <= i < |MakeTag(words)|
      ensures MakeTag(words)[i] != ':'
    {
      assert IsAlphaNumeric(MakeTag(words)[i]);
    }
  }

  /** A new document's address parses back into kind 33457, the key it is
      filed under and its generated tag. */
  lemma DraftAddressParses(pubkey: string, words: seq<Word>)
    requires ':' !in pubkey
    ensures ParseAddress(FormatAddress(KIND_FILE, pubkey, MakeTag(words)))
         == Some(ParsedAddress(KIND_FILE, pubkey, MakeTag(words)))
  {
    var d := MakeTag(words);
    TagHasNoColon(words);
    IntToStringHasNoColon(KIND_FILE);
    ParseIntOfIntToString(KIND_FILE);
    ParseAddressAccepts(IntToString(KIND_FILE), pubkey, d, KIND_FILE);
  }

  /** saveNewDocument. `tagWords` are the six random words of makeTag(6).
      The selection is set to the new address before the snapshot is
      attempted, so it stays set when the save fails. On success the editor
      navigates to the new document's naddr and the tag is returned. */
  method SaveNewDocument(c: Crypto, viewKey: Option<string>, editKey: Option<string>, signer: Option<Signer>,
                         content: string, tagWords: seq<Word>, nowMs: int)
    returns (r: Result<string>, selected: Option<string>, effects: seq<Effect>)
    requires |tagWords| == 6
    ensures DraftPubkey(c, editKey, signer).None? ==> r == Err(NoSigner) && selected.None? && effects == []
    ensures DraftPubkey(c, editKey, signer).Some? ==>
              selected == Some(FormatAddress(KIND_FILE, DraftPubkey(c, editKey, signer).value, MakeTag(tagWords)))
    ensures r.Ok? <==> PublishesAnything(effects)
    ensures r.Ok? ==> && DraftPubkey(c, editKey, signer).Some?
                      && r.value == MakeTag(tagWords) && |r.value| == 6
                      && |effects| >= 3 && effects[|effects| - 3].AddDocument?
                      && effects[|effects| - 2] == Publish(effects[|effects| - 3].event)
                      && effects[|effects| - 1]
                         == Navigate("/doc/" + c.naddrEncode(KIND_FILE, DraftPubkey(c, editKey, signer).value, r.value))
    ensures r.Ok? ==> && signer.Some? && selected.Some?
                      && SavedRevision(c, viewKey, editKey, signer.value, selected.value, content, nowMs,
                                       effects[..|effects| - 1])
    ensures r.Ok? && ':' !in DraftPubkey(c, editKey, signer).value
            && (Present(editKey) || SignsFaithfully(signer.value)) ==>
              Some(effects[|effects| - 3].event.pubkey) == DraftPubkey(c, editKey, signer)
              && GetEventAddress(effects[|effects| - 3].event) == selected
  {
    var dTag := MakeTag(tagWords);
    var pubkey: string;
    if Present(editKey) {
      pubkey := c.getPublicKey(c.hexToBytes(editKey.value));
    } else {
      if signer.None? {
        return Err(NoSigner), None, [];
      }
      pubkey := signer.value.pubkey;
    }
    var address := FormatAddress(KIND_FILE, pubkey, dTag);
    selected := Some(address);
    var snap;
    snap, effects := SaveSnapshot(c, viewKey, editKey, signer, address, content, nowMs);
    if snap.Err? {
      return Err(snap.error), selected, effects;
    }
    ghost var saved := snap.value;
    ghost var before := effects;
    effects := effects + [Navigate("/doc/" + c.naddrEncode(KIND_FILE, pubkey, dTag))];
    assert effects[..|effects| - 1] == before;
    assert effects[|effects| - 3] == AddDocument(saved);
    assert effects[|before| - 1] == Publish(saved);
    r := Ok(dTag);
    if ':' !in pubkey && (Present(editKey) || SignsFaithfully(signer.value)) {
      TagHasNoColon(tagWords);
      var enc := EncryptContent(c, content, viewKey, signer);
      var t := SnapshotTemplate(SnapshotIdentifier(address), enc.value, signer.value.pubkey, nowMs);
      assert Stamped(saved, t, pubkey);
      SnapshotKeepsAddress(pubkey, dTag, t, saved, enc.value, signer.value.pubkey, nowMs);
    }
  }

  /** deleteEvent for `address` followed by removeDocument for the same id,
      reached only when the deletion request was published. */
  method DeleteAndRemove(address: Option<string>, signer: Option<Signer>, nowMs: int)
    returns (r: Result<()>, effects: seq<Effect>)
    ensures |effects| >= 1 && effects[0] == DeleteInvoked(address)
    ensures address.None? ==> r == Err(TypeError) && effects == [DeleteInvoked(None)]
    ensures r.Ok? <==> address.Some? && signer.Some? && DeleteSucceeds(address.value, DEFAULT_REASON, signer.value, nowMs)
    ensures r.Ok? ==> |effects| >= 2 && effects[|effects| - 2].Publish?
                      && effects[|effects| - 1] == RemoveDocument(address.value)
    ensures r.Err? ==> forall i :: 0 <= i < |effects| ==> !effects[i].RemoveDocument?
  {
    var deleted;
    deleted, effects := DeleteEvent(address, Some(DEFAULT_REASON), signer, nowMs);
    if deleted.Err? {
      return Err(deleted.error), effects;
    }
    effects := effects + [RemoveDocument(address.value)];
    r := Ok(());
  }

  datatype Mode = EditMode | PreviewMode

  /** The Snackbar state. */
  datatype Toast = Toast(open: bool, message: string, success: bool)

  const CLOSED_TOAST: Toast := Toast(false, "", true)
  const SAVED_TOAST: Toast := Toast(true, "Saved", true)
  const FAILED_TOAST: Toast := Toast(true, "Failed to save!", false)

  /** The try block of handleSave: a draft (no document selected) is saved as
      a new document, otherwise the content becomes a new revision of the
      selected address. `saved` is whether the save completed; `selected`
      is the address a draft now has, if any. */
  method SaveContent(c: Crypto, viewKey: Option<string>, editKey: Option<string>, signer: Option<Signer>,
                     documentId: Option<string>, content: string, tagWords: seq<Word>, nowMs: int)
    returns (saved: bool, selected: Option<string>, effects: seq<Effect>)
    requires |tagWords| == 6
    ensures saved <==> PublishesAnything(effects)
    ensures saved ==> signer.Some?
    ensures documentId.Some? ==>
              && selected.None?
              && (saved <==> signer.Some? && SavedRevision(c, viewKey, editKey, signer.value, documentId.value,
                                                           content, nowMs, effects))
    ensures documentId.None? ==>
              var pk := DraftPubkey(c, editKey, signer);
              && (pk.Some? ==> selected == Some(FormatAddress(KIND_FILE, pk.value, MakeTag(tagWords))))
              && (pk.None? ==> selected.None? && !saved)
              && (saved ==> && |effects| > 0 && selected.Some? && effects[|effects| - 1].Navigate?
                            && SavedRevision(c, viewKey, editKey, signer.value, selected.value, content, nowMs,
                                             effects[..|effects| - 1]))
  {
    if documentId.None? {
      var res;
      res, selected, effects := SaveNewDocument(c, viewKey, editKey, signer, content, tagWords, nowMs);
      saved := res.Ok?;
    } else {
      var res;
      res, effects := SaveSnapshot(c, viewKey, editKey, signer, documentId.value, content, nowMs);
      saved := res.Ok?;
      selected := None;
    }
  }

  /** A save that has passed handleSave's guards and awaits its outcome: the
      buffer content and the selection as captured when it began. */
  datatype SaveJob = SaveJob(content: string, silent: bool, documentId: Option<string>)

  /** The first version with the given event id (`versions.find`). */
  function FindVersion(versions: seq<Version>, id: string): (r: Option<Version>)
    ensures r.None? <==> forall i :: 0 <= i < |versions| ==> versions[i].event.id != id
    ensures r.Some? ==> exists i :: && 0 <= i < |versions| && versions[i] == r.value && r.value.event.id == id
                                    && forall j :: 0 <= j < i ==> versions[j].event.id != id
  {
    if |versions| == 0 then None
    else if versions[0].event.id == id then Some(versions[0])
    else
      var r := FindVersion(versions[1..], id);
      assert forall j :: 1 <= j < |versions| ==> versions[j] == versions[1..][j - 1];
      r
  }

  /** The editor for the selected document (a draft when there is none), over
      a snapshot of the document store's history map. */
  class Controller {
    const crypto: Crypto
    const viewKey: Option<string>
    const editKey: Option<string>
    var documents: map<string, History>
    var selectedDocumentId: Option<string>
    var md: string
    var lastSavedMd: string
    var mode: Mode
    var saving: bool
    var inFlight: Option<SaveJob>
    var confirmOpen: bool
    var pendingVersionId: Option<string>
    var historyConfirmOpen: bool
    var toast: Toast
    /** The active version id the `[activeVersion?.event.id]` effect last ran for. */
    var effectVersionId: Option<string>
    var effects: seq<Effect>

    /** A save is in flight exactly while `saving` is set. */
    predicate Valid()
      reads this
    {
      saving <==> inFlight.Some?
    }

    function IsDraft(): bool
      reads this
    {
      selectedDocumentId.None?
    }

    /** `selectedDocumentId ? documents.get(selectedDocumentId) : null`. */
    function CurrentHistory(): (h: Option<History>)
      reads this
      ensures h.Some? <==> Present(selectedDocumentId) && selectedDocumentId.value in documents
      ensures h.Some? ==> h.value == documents[selectedDocumentId.value]
    {
      if Present(selectedDocumentId) && selectedDocumentId.value in documents
      then Some(documents[selectedDocumentId.value]) else None
    }

    /** The newest version of the selected history. */
    function ActiveVersion(): (v: Option<Version>)
      reads this
      ensures v.Some? <==> CurrentHistory().Some? && |CurrentHistory().value.versions| > 0
      ensures v.Some? ==> v.value == CurrentHistory().value.versions[|CurrentHistory().value.versions| - 1]
    {
      match CurrentHistory()
      case None => None
      case Some(h) => GetLatestVersion(h)
    }

    function ActiveVersionId(): Option<string>
      reads this
    {
      if ActiveVersion().Some? then Some(ActiveVersion().value.event.id) else None
    }

    /** First render and the mount run of the active-version effect: the
        buffer and the last saved content are the active version's content,
        or "" without one. A draft opens in edit mode, a document in preview. */
    constructor (c: Crypto, viewKey: Option<string>, editKey: Option<string>,
                 documents: map<string, History>, selectedDocumentId: Option<string>)
      ensures Valid() && !saving && effects == []
      ensures crypto == c && this.viewKey == viewKey && this.editKey == editKey
      ensures this.documents == documents && this.selectedDocumentId == selectedDocumentId
      ensures md == lastSavedMd
      ensures ActiveVersion().Some? ==> md == ActiveVersion().value.decryptedContent
      ensures ActiveVersion().None? ==> md == ""
      ensures mode == (if selectedDocumentId.None? then EditMode else PreviewMode)
      ensures !confirmOpen && !historyConfirmOpen && pendingVersionId.None? && toast == CLOSED_TOAST
      ensures effectVersionId == ActiveVersionId()
    {
      crypto := c;
      this.viewKey := viewKey;
      this.editKey := editKey;
      this.documents := documents;
      this.selectedDocumentId := selectedDocumentId;
      var history: Option<History> :=
        if Present(selectedDocumentId) && selectedDocumentId.value in documents
        then Some(documents[selectedDocumentId.value]) else None;
      var active: Option<Version> := if history.Some? then GetLatestVersion(history.value) else None;
      md := if active.Some? then active.value.decryptedContent else "";
      mode := if selectedDocumentId.None? then EditMode else PreviewMode;
      saving := false;
      inFlight := None;
      confirmOpen := false;
      pendingVersionId := None;
      historyConfirmOpen := false;
      toast := CLOSED_TOAST;
      effects := [];
      lastSavedMd := "";
      effectVersionId := if active.Some? then Some(active.value.event.id) else None;
      if active.Some? {
        md := active.value.decryptedContent;
        lastSavedMd := active.value.decryptedContent;
      }
    }

    /** A render after the selection or the store changed: the effect runs
        when the active version id differs from its last run, and then
        loads the active version (if any) into both the buffer and the last
        saved content. */
    method Render()
      modifies this`md, this`lastSavedMd, this`effectVersionId
      ensures effectVersionId == ActiveVersionId()
      ensures old(effectVersionId) != ActiveVersionId() && ActiveVersion().Some? ==>
                md == ActiveVersion().value.decryptedContent && lastSavedMd == md
      ensures !(old(effectVersionId) != ActiveVersionId() && ActiveVersion().Some?) ==>
                md == old(md) && lastSavedMd == old(lastSavedMd)
    {
      if effectVersionId != ActiveVersionId() {
        effectVersionId := ActiveVersionId();
        if ActiveVersion().Some? {
          md := ActiveVersion().value.decryptedContent;
          lastSavedMd := ActiveVersion().value.decryptedContent;
        }
      }
    }

    /** The document store delivered a new history map. */
    method StoreChanged(newDocuments: map<string, History>)
      modifies this`documents, this`md, this`lastSavedMd, this`effectVersionId
      ensures documents == newDocuments && effectVersionId == ActiveVersionId()
      ensures old(effectVersionId) != ActiveVersionId() && ActiveVersion().Some? ==>
                md == ActiveVersion().value.decryptedContent && lastSavedMd == md
      ensures !(old(effectVersionId) != ActiveVersionId() && ActiveVersion().Some?) ==>
                md == old(md) && lastSavedMd == old(lastSavedMd)
    {
      documents := newDocuments;
      Render();
    }

    /** The editor surface's onChange. */
    method Edit(value: string)
      modifies this`md
      ensures md == value
    {
      md := value;
    }

    method ToggleMode()
      modifies this`mode
      ensures mode == (if old(mode) == EditMode then PreviewMode else EditMode)
    {
      mode := if mode == EditMode then PreviewMode else EditMode;
    }

    /** handleSelectVersion: remember the version and ask for confirmation. */
    method HandleSelectVersion(eventId: string)
      modifies this`pendingVersionId, this`historyConfirmOpen
      ensures pendingVersionId == Some(eventId) && historyConfirmOpen
    {
      pendingVersionId := Some(eventId);
      historyConfirmOpen := true;
    }

    /** The history dialog's cancel. */
    method CancelHistoricalVersion()
      modifies this`pendingVersionId, this`historyConfirmOpen
      ensures pendingVersionId.None? && !historyConfirmOpen
    {
      historyConfirmOpen := false;
      pendingVersionId := None;
    }

    /** applyHistoricalVersion: nothing happens without a history, a pending
        id or a version with that id; otherwise the first such version
        becomes both the buffer and the last saved content (so saving right
        away is a no-op), in preview, and the dialog closes. */
    method ApplyHistoricalVersion()
      modifies this`md, this`lastSavedMd, this`mode, this`historyConfirmOpen, this`pendingVersionId
      ensures var found := if CurrentHistory().Some? && Present(old(pendingVersionId))
                           then FindVersion(CurrentHistory().value.versions, old(pendingVersionId).value) else None;
              if found.Some? then
                && md == found.value.decryptedContent && lastSavedMd == md
                && mode == PreviewMode && !historyConfirmOpen && pendingVersionId.None?
              else
                && md == old(md) && lastSavedMd == old(lastSavedMd) && mode == old(mode)
                && historyConfirmOpen == old(historyConfirmOpen) && pendingVersionId == old(pendingVersionId)
    {
      if CurrentHistory().None? || !Present(pendingVersionId) {
        return;
      }
      var version := FindVersion(CurrentHistory().value.versions, pendingVersionId.value);
      if version.None? {
        return;
      }
      md := version.value.decryptedContent;
      lastSavedMd := version.value.decryptedContent;
      mode := PreviewMode;
      historyConfirmOpen := false;
      pendingVersionId := None;
    }

    /** handleSave up to its first await: a save already in flight or an
        unchanged buffer is a no-op; otherwise `saving` is set and the job
        captures the buffer and the selection. */
    method HandleSave(silent: bool)
      requires Valid()
      modifies this`saving, this`inFlight
      ensures Valid()
      ensures old(saving) || md == lastSavedMd ==> saving == old(saving) && inFlight == old(inFlight)
      ensures !old(saving) && md != lastSavedMd ==> saving && inFlight == Some(SaveJob(md, silent, selectedDocumentId))
    {
      if saving {
        return;
      }
      var mdToSave := md;
      if mdToSave == lastSavedMd {
        return;
      }
      saving := true;
      inFlight := Some(SaveJob(mdToSave, silent, selectedDocumentId));
    }

    /** The rest of handleSave: a draft is saved as a new document, an
        existing document as a new revision of its address. On success the
        saved content becomes the last saved content (a success toast unless
        silent); on failure an error toast. `saving` is cleared either way.
        `saved` is whether the save completed. */
    method SettleSave(signer: Option<Signer>, tagWords: seq<Word>, nowMs: int) returns (saved: bool)
      requires Valid() && inFlight.Some? && |tagWords| == 6
      modifies this`saving, this`inFlight, this`lastSavedMd, this`selectedDocumentId, this`toast, this`effects
      ensures Valid() && !saving
      ensures |effects| >= |old(effects)| && effects[..|old(effects)|] == old(effects)
      ensures saved <==> PublishesAnything(effects[|old(effects)|..])
      ensures saved ==> lastSavedMd == old(inFlight).value.content
      ensures saved && !old(inFlight).value.silent ==> toast == SAVED_TOAST
      ensures saved && old(inFlight).value.silent ==> toast == old(toast)
      ensures !saved ==> lastSavedMd == old(lastSavedMd) && toast == FAILED_TOAST
      ensures old(inFlight).value.documentId.Some? ==> selectedDocumentId == old(selectedDocumentId)
      ensures saved ==> signer.Some?
      ensures saved && old(inFlight).value.documentId.Some? ==>
                SavedRevision(crypto, viewKey, editKey, signer.value, old(inFlight).value.documentId.value,
                              old(inFlight).value.content, nowMs, effects[|old(effects)|..])
      ensures saved && old(inFlight).value.documentId.None? ==>
                && |effects| > |old(effects)| && selectedDocumentId.Some?
                && SavedRevision(crypto, viewKey, editKey, signer.value, selectedDocumentId.value,
                                 old(inFlight).value.content, nowMs, effects[|old(effects)|..|effects| - 1])
                && effects[|effects| - 1].Navigate?
      ensures old(inFlight).value.documentId.None? && DraftPubkey(crypto, editKey, signer).Some? ==>
                selectedDocumentId == Some(FormatAddress(KIND_FILE, DraftPubkey(crypto, editKey, signer).value, MakeTag(tagWords)))
      ensures old(inFlight).value.documentId.None? && DraftPubkey(crypto, editKey, signer).None? ==>
                selectedDocumentId == old(selectedDocumentId) && !saved
    {
      var job := inFlight.value;
      var sel, e;
      saved, sel, e := SaveContent(crypto, viewKey, editKey, signer, job.documentId, job.content, tagWords, nowMs);
      if sel.Some? {
        selectedDocumentId := sel;
      }
      ghost var before := effects;
      effects := effects + e;
      assert effects[|before|..] == e;
      assert effects[..|before|] == before;
      if saved && job.documentId.None? {
        assert effects[|before|..|effects| - 1] == e[..|e| - 1];
      }
      FinishSave(saved, job.content, job.silent);
    }

    /** The end of handleSave: a completed save records `content` as the last
        saved content (with a success toast unless silent), a failed one shows
        the error toast, and the save is no longer in flight. */
    method FinishSave(saved: bool, content: string, silent: bool)
      modifies this`saving, this`inFlight, this`lastSavedMd, this`toast
      ensures Valid() && !saving
      ensures saved ==> lastSavedMd == content
      ensures saved && !silent ==> toast == SAVED_TOAST
      ensures saved && silent ==> toast == old(toast)
      ensures !saved ==> lastSavedMd == old(lastSavedMd) && toast == FAILED_TOAST
    {
      if saved {
        lastSavedMd := content;
        if !silent {
          toast := SAVED_TOAST;
        }
      } else {
        toast := FAILED_TOAST;
      }
      saving := false;
      inFlight := None;
    }

    method CloseToast()
      modifies this`toast
      ensures toast == old(toast).(open := false)
    {
      toast := toast.(open := false);
    }

    /** handleDelete as written. Without skipPrompt it opens the confirmation.
        With it, deleteEvent receives an object without `address` and throws
        a TypeError, so removeDocument is never reached. */
    method HandleDelete(skipPrompt: bool, signer: Option<Signer>, nowMs: int) returns (r: Result<()>)
      modifies this`confirmOpen, this`effects
      ensures !skipPrompt ==> r == Ok(()) && confirmOpen && effects == old(effects)
      ensures skipPrompt ==> && r == Err(TypeError) && confirmOpen == old(confirmOpen)
                             && effects == old(effects) + [DeleteInvoked(None)]
    {
      if skipPrompt {
        var e;
        r, e := DeleteAndRemove(None, signer, nowMs);
        effects := effects + e;
        return;
      }
      confirmOpen := true;
      r := Ok(());
    }

    /** The delete dialog's confirm, as written: it closes the dialog and
        then fails like handleDelete(true). */
    method ConfirmDelete(signer: Option<Signer>, nowMs: int) returns (r: Result<()>)
      modifies this`confirmOpen, this`effects
      ensures r == Err(TypeError) && !confirmOpen && effects == old(effects) + [DeleteInvoked(None)]
    {
      confirmOpen := false;
      var e;
      r, e := DeleteAndRemove(None, signer, nowMs);
      effects := effects + e;
    }

    method CancelDelete()
      modifies this`confirmOpen
      ensures !confirmOpen
    {
      confirmOpen := false;
    }

    /** The evidently intended confirm: the deletion names the selected
        address, and the document is removed from the store exactly when the
        deletion request was published. */
    method ConfirmDeleteCorrected(signer: Option<Signer>, nowMs: int) returns (r: Result<()>)
      modifies this`confirmOpen, this`effects
      ensures !confirmOpen
      ensures |effects| > |old(effects)| && effects[..|old(effects)|] == old(effects)
      ensures effects[|old(effects)|] == DeleteInvoked(selectedDocumentId)
      ensures r.Ok? <==> selectedDocumentId.Some? && signer.Some?
                         && DeleteSucceeds(selectedDocumentId.value, DEFAULT_REASON, signer.value, nowMs)
      ensures r.Ok? ==> && |effects| >= |old(effects)| + 2 && effects[|effects| - 2].Publish?
                        && effects[|effects| - 1] == RemoveDocument(selectedDocumentId.value)
      ensures r.Err? ==> forall i :: |old(effects)| <= i < |effects| ==> !effects[i].RemoveDocument?
    {
      confirmOpen := false;
      var e;
      r, e := DeleteAndRemove(selectedDocumentId, signer, nowMs);
      ghost var before := effects;
      effects := effects + e;
      assert effects[..|before|] == before;
      assert forall i :: |before| <= i < |effects| ==> effects[i] == e[i - |before|];
    }

    /** The share dialog's private-link action: the selected id and the
        active version's content are handed to handleGeneratePrivateLink. */
    method Share(canEdit: bool, signer: Option<Signer>, freshView: Bytes, freshEdit: Bytes, nowMs: int, origin: string)
      returns (r: Result<Option<string>>)
      modifies this`effects
      ensures |effects| >= |old(effects)| && effects[..|old(effects)|] == old(effects)
      ensures !Present(selectedDocumentId) ==> r == Ok(None) && effects == old(effects)
      ensures canEdit ==> r.Err? || r == Ok(None)
      ensures Present(selectedDocumentId) ==>
                var content := if ActiveVersion().Some? then Some(ActiveVersion().value.decryptedContent) else None;
                if signer.None? then r == Err(NoSigner) && effects == old(effects)
                else if !Present(content) then r == Ok(None) && effects == old(effects)
                else
                  var view := ViewKeyUsed(crypto, viewKey, freshView);
                  var t := SharedTemplate(crypto, selectedDocumentId.value, content.value, view, nowMs);
                  if canEdit then
                    var signed := FinalizeEvent(crypto, t, EditKeyUsed(crypto, canEdit, editKey, freshEdit).value);
                    r == Err(TypeError) && effects == old(effects) + [Publish(signed), DeleteInvoked(None)]
                  else
                    match signer.value.signEvent(t)
                    case None => r == Err(SignerFailed) && effects == old(effects) + [SignRequest(t)]
                    case Some(signed) =>
                      && r == Ok(Some(ShareUrl(crypto, origin, signed.pubkey, selectedDocumentId.value, view, None)))
                      && effects == old(effects) + [SignRequest(t), Publish(signed)]
      ensures r.Ok? && r.value.Some? ==>
                && !canEdit && signer.Some? && ActiveVersion().Some? && ActiveVersion().value.decryptedContent != ""
                && PublishesAnything(effects[|old(effects)|..])
    {
      var docContent := if ActiveVersion().Some? then Some(ActiveVersion().value.decryptedContent) else None;
      var e;
      r, e := HandleGeneratePrivateLink(crypto, canEdit, selectedDocumentId, docContent, viewKey, editKey, signer,
                                        freshView, freshEdit, nowMs, origin);
      ghost var before := effects;
      effects := effects + e;
      assert effects[..|before|] == before;
      assert effects[|before|..] == e;
      if r.Ok? && r.value.Some? {
        assert e[|e| - 1].Publish?;
      }
    }
  }
}
