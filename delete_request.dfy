/** NIP-09 deletion requests: parsing an `a`-link address and building,
    signing and publishing a kind-5 request for it. */
module DeleteRequest {

  import opened Nostr
  import opened Strings
  import opened Helpers

  datatype ParsedAddress = ParsedAddress(kind: int, pubkey: string, identifier: string)

  const DEFAULT_REASON: string := "User requested deletion"

  /** parseAddress: exactly three colon-separated parts, the first of which
      `parseInt` reads as a number. */
  function ParseAddress(address: string): (r: Option<ParsedAddress>)
    ensures r.Some? ==> ':' !in r.value.pubkey && ':' !in r.value.identifier
    ensures r.Some? ==> address == Split(address, ':')[0] + ":" + r.value.pubkey + ":" + r.value.identifier
    ensures r.Some? ==> ParseInt(Split(address, ':')[0]) == Some(r.value.kind)
  {
    var parts := Split(address, ':');
    if |parts| != 3 then None
    else
      match ParseInt(parts[0])
      case None => None
      case Some(kind) =>
        SplitPartsHaveNoSeparator(address, ':');
        JoinSplit(address, ':', ':');
        ReplaceSame(address, ':');
        assert parts[1..] == [parts[1], parts[2]];
        assert Join(parts, ":") == parts[0] + ":" + Join([parts[1], parts[2]], ":");
        Some(ParsedAddress(kind, parts[1], parts[2]))
  }

  /** Conversely, a three-part address whose first part parses is accepted
      with its parts verbatim. */
  lemma ParseAddressAccepts(kindPart: string, pubkey: string, identifier: string, kind: int)
    requires ':' !in kindPart && ':' !in pubkey && ':' !in identifier
    requires ParseInt(kindPart) == Some(kind)
    ensures ParseAddress(kindPart + ":" + pubkey + ":" + identifier)
         == Some(ParsedAddress(kind, pubkey, identifier))
  {
    assert kindPart + ":" + pubkey + ":" + identifier == kindPart + [':'] + pubkey + [':'] + identifier;
    SplitThree(kindPart, pubkey, identifier, ':');
  }

  /** A kind part with no leading number makes the address unparseable. */
  lemma ParseAddressRejectsNaN(address: string)
    requires |Split(address, ':')| == 3 && ParseInt(Split(address, ':')[0]).None?
    ensures ParseAddress(address).None?
  {
  }

  /** `parseInt` reads only the leading number of the kind part, so an address
      whose kind part is " 5x" is accepted as kind 5. */
  lemma ParseAddressReadsLeadingNumber()
    ensures ParseAddress(" 5x:ab:cd") == Some(ParsedAddress(5, "ab", "cd"))
  {
    var kindPart, pubkey, identifier := " 5x", "ab", "cd";
    ParseIntReadsLeadingNumber();
    assert ':' !in kindPart && ':' !in pubkey && ':' !in identifier;
    ParseAddressAccepts(kindPart, pubkey, identifier, 5);
    assert " 5x:ab:cd" == kindPart + ":" + pubkey + ":" + identifier;
  }

  lemma ParseIntReadsLeadingNumber()
    ensures ParseInt(" 5x") == Some(5)
  {
    var x := "x";
    assert !IsDigit(x[0]);
    assert LeadingDigits(x) == "";
    var fx := "5x";
    assert fx[1..] == x;
    assert IsDigit(fx[0]) && !IsJsWhiteSpace(fx[0]);
    assert LeadingDigits(fx) == "5";
    assert TrimStart(fx) == fx;
    var sfx := " 5x";
    assert sfx[1..] == fx;
    assert IsJsWhiteSpace(sfx[0]);
    assert TrimStart(sfx) == fx;
    var five := "5";
    assert five[..0] == "";
    assert DigitsValue(five) == 5;
  }

  /** An address built by getEventAddress parses back into the event's kind,
      pubkey and identifier when neither of the latter contains a colon. */
  lemma AddressRoundTrip(e: Event)
    requires GetEventAddress(e).Some?
    requires ':' !in e.pubkey && ':' !in DTagValue(e.tags).value
    ensures ParseAddress(GetEventAddress(e).value)
         == Some(ParsedAddress(e.kind, e.pubkey, DTagValue(e.tags).value))
  {
    var d := DTagValue(e.tags).value;
    IntToStringHasNoColon(e.kind);
    ParseIntOfIntToString(e.kind);
    ParseAddressAccepts(IntToString(e.kind), e.pubkey, d, e.kind);
  }

  /** The unsigned NIP-09 request for a parsed address. */
  function DeletionTemplate(address: string, kind: int, reason: string, pubkey: string, nowMs: int): (t: Template)
    ensures t.kind == KIND_DELETION && t.content == reason && t.pubkey == Some(pubkey)
    ensures t.tags == [["a", address], ["k", IntToString(kind)]]
  {
    Template(KIND_DELETION, Some(pubkey), Seconds(nowMs), [["a", address], ["k", IntToString(kind)]], reason)
  }

  /** Whether deleteEvent reaches its publish for a present address and a signer. */
  predicate DeleteSucceeds(address: string, reason: string, s: Signer, nowMs: int)
  {
    ParseAddress(address).Some?
    && s.signEvent(DeletionTemplate(address, ParseAddress(address).value.kind, reason, s.pubkey, nowMs)).Some?
  }

  /** deleteEvent. `address` is None when the caller's argument object has no
      `address` field: `parseAddress(undefined)` then throws a TypeError.
      `reason` None selects the default reason; `signer` None means that
      getSigner rejected. */
  method DeleteEvent(address: Option<string>, reason: Option<string>, signer: Option<Signer>, nowMs: int)
    returns (r: Result<Event>, effects: seq<Effect>)
    ensures |effects| >= 1 && effects[0] == DeleteInvoked(address)
    ensures address.None? ==> r == Err(TypeError) && effects == [DeleteInvoked(address)]
    ensures address.Some? && ParseAddress(address.value).None? ==>
              r == Err(InvalidAddress) && effects == [DeleteInvoked(address)]
    ensures address.Some? && ParseAddress(address.value).Some? && signer.None? ==>
              r == Err(NoSigner) && effects == [DeleteInvoked(address)]
    ensures address.Some? && ParseAddress(address.value).Some? && signer.Some? ==>
              var t := DeletionTemplate(address.value, ParseAddress(address.value).value.kind,
                                        if reason.Some? then reason.value else DEFAULT_REASON,
                                        signer.value.pubkey, nowMs);
              match signer.value.signEvent(t)
              case None => r == Err(SignerFailed) && effects == [DeleteInvoked(address), SignRequest(t)]
              case Some(signed) => r == Ok(signed) && effects == [DeleteInvoked(address), SignRequest(t), Publish(signed)]
    ensures r.Ok? ==> effects[|effects| - 1] == Publish(r.value)
    ensures PublishesAnything(effects) ==> r.Ok?
    ensures r.Ok? <==> address.Some? && signer.Some?
                       && DeleteSucceeds(address.value, if reason.Some? then reason.value else DEFAULT_REASON, signer.value, nowMs)
  {
    effects := [DeleteInvoked(address)];
    if address.None? {
      return Err(TypeError), effects;
    }
    var parsed := ParseAddress(address.value);
    if parsed.None? {
      return Err(InvalidAddress), effects;
    }
    if signer.None? {
      return Err(NoSigner), effects;
    }
    var s := signer.value;
    var why := if reason.Some? then reason.value else DEFAULT_REASON;
    var template := DeletionTemplate(address.value, parsed.value.kind, why, s.pubkey, nowMs);
    effects := effects + [SignRequest(template)];
    var signed := s.signEvent(template);
    if signed.None? {
      assert !DeleteSucceeds(address.value, why, s, nowMs);
      assert effects == [DeleteInvoked(address), SignRequest(template)];
      return Err(SignerFailed), effects;
    }
    assert DeleteSucceeds(address.value, why, s, nowMs);
    effects := effects + [Publish(signed.value)];
    assert effects == [DeleteInvoked(address), SignRequest(template), Publish(signed.value)];
    r := Ok(signed.value);
  }

  /** A request built for an address parses back to the same kind that its
      `k` tag spells out, whenever the address itself parses. */
  lemma DeletionTagsAgree(address: string, reason: string, pubkey: string, nowMs: int)
    requires ParseAddress(address).Some?
    ensures var t := DeletionTemplate(address, ParseAddress(address).value.kind, reason, pubkey, nowMs);
            ParseInt(t.tags[1][1]) == Some(ParseAddress(address).value.kind)
            && t.tags[0][1] == address
  {
    ParseIntOfIntToString(ParseAddress(address).value.kind);
  }
}
