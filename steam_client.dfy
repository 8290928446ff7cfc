/**
 * The Steam OpenID Authentication 2.0 client.
 *
 * The login redirect is a `checkid_setup` request with directed identity
 * (section 9.1 of OpenID Authentication 2.0). The callback from the provider
 * is checked by direct verification (section 11.4.2): the signed fields are
 * copied into a `check_authentication` request that is POSTed back to the
 * provider, whose answer must contain `is_valid:true`.
 */
module SteamClient {
  import opened Wrappers
  import opened PyStr
  import opened UrlEncode
  import opened PyDict
  import opened Http

  const LoginUrl: string := "https://steamcommunity.com/openid/login"
  const OpenIdNs: string := "http://specs.openid.net/auth/2.0"
  const IdentifierSelect: string := "http://specs.openid.net/auth/2.0/identifier_select"
  const FormContentType: string := "application/x-www-form-urlencoded"
  const CheckidSetup: string := "checkid_setup"
  const CheckAuthentication: string := "check_authentication"
  const ValidMarker: string := "is_valid:true"

  const Prefix: string := "openid."
  const NsKey: string := "openid.ns"
  const ModeKey: string := "openid.mode"
  const ReturnToKey: string := "openid.return_to"
  const RealmKey: string := "openid.realm"
  const IdentityKey: string := "openid.identity"
  const ClaimedIdKey: string := "openid.claimed_id"
  const AssocHandleKey: string := "openid.assoc_handle"
  const SignedKey: string := "openid.signed"
  const SigKey: string := "openid.sig"

  /** A Python `KeyError` raised by a missing query parameter. */
  datatype KeyError = KeyError(key: string)

  /** What `handle_redirect_from_provider` returns: `{"token": ..., "user": ...}`. */
  datatype Credential = Credential(token: Option<string>, user: map<string, string>)

  // ---------------------------------------------------------------------
  // Authentication request

  /** The dict literal of the redirect's query parameters, in source order. */
  function RedirectItems(redirectUri: string): seq<(string, string)> {
    [ (NsKey, OpenIdNs),
      (ModeKey, CheckidSetup),
      (ReturnToKey, redirectUri),
      (RealmKey, redirectUri),
      (IdentityKey, IdentifierSelect),
      (ClaimedIdKey, IdentifierSelect) ]
  }

  /** The dict display, evaluated as Python does: one assignment per entry, left to right. */
  function RedirectQuery(redirectUri: string): Dict {
    var d := Insert(Empty, NsKey, OpenIdNs);
    var d := Insert(d, ModeKey, CheckidSetup);
    var d := Insert(d, ReturnToKey, redirectUri);
    var d := Insert(d, RealmKey, redirectUri);
    var d := Insert(d, IdentityKey, IdentifierSelect);
    Insert(d, ClaimedIdKey, IdentifierSelect)
  }

  /** `redirect_to_provider_auth_page`: the request itself is not consulted. */
  function RedirectToProviderAuthPage(request: HttpRequest, redirectUri: string): HttpResponse {
    RedirectQueryItems(redirectUri);
    HttpResponse(Found, LoginUrl + "?" + Urlencode(Items(RedirectQuery(redirectUri))), FormContentType)
  }

  /** Splits a URL at its `?` and decodes the query string after it. */
  function ParseLocation(location: string): Option<(string, seq<(string, string)>)> {
    var parts := Split(location, '?');
    if |parts| != 2 then None
    else match ParseQuery(parts[1])
      case None => None
      case Some(pairs) => Some((parts[0], pairs))
  }

  /** The OpenID field names of the two dict displays are pairwise distinct. */
  lemma KeysDistinct()
    ensures NsKey != ModeKey && NsKey != ReturnToKey && NsKey != RealmKey && NsKey != IdentityKey && NsKey != ClaimedIdKey
    ensures ModeKey != ReturnToKey && ModeKey != RealmKey && ModeKey != IdentityKey && ModeKey != ClaimedIdKey
    ensures ReturnToKey != RealmKey && ReturnToKey != IdentityKey && ReturnToKey != ClaimedIdKey
    ensures RealmKey != IdentityKey && RealmKey != ClaimedIdKey && IdentityKey != ClaimedIdKey
    ensures AssocHandleKey != SignedKey && AssocHandleKey != SigKey && AssocHandleKey != NsKey
    ensures SignedKey != SigKey && SignedKey != NsKey && SigKey != NsKey
    ensures AssocHandleKey != ModeKey && SignedKey != ModeKey && SigKey != ModeKey
  {
  }

  /** The payload's fixed field names are all `openid.` parameters. */
  lemma PrefixedKeys()
    ensures StartsWith(AssocHandleKey, Prefix) && StartsWith(SignedKey, Prefix)
    ensures StartsWith(SigKey, Prefix) && StartsWith(NsKey, Prefix) && StartsWith(ModeKey, Prefix)
  {
  }

  /** The redirect map has exactly the six OpenID fields, with these values. */
  lemma RedirectQueryFields(redirectUri: string)
    ensures RedirectQuery(redirectUri)
         == Dict([NsKey, ModeKey, ReturnToKey, RealmKey, IdentityKey, ClaimedIdKey],
                 map[NsKey := OpenIdNs, ModeKey := CheckidSetup, ReturnToKey := redirectUri,
                     RealmKey := redirectUri, IdentityKey := IdentifierSelect, ClaimedIdKey := IdentifierSelect])
  {
    KeysDistinct();
    Display6(NsKey, OpenIdNs, ModeKey, CheckidSetup, ReturnToKey, redirectUri,
             RealmKey, redirectUri, IdentityKey, IdentifierSelect, ClaimedIdKey, IdentifierSelect);
  }

  /** The redirect dict lists the display's pairs in the order written. */
  lemma RedirectQueryItems(redirectUri: string)
    ensures Valid(RedirectQuery(redirectUri))
    ensures Items(RedirectQuery(redirectUri)) == RedirectItems(redirectUri)
  {
    KeysDistinct();
    RedirectQueryFields(redirectUri);
    Items6(NsKey, OpenIdNs, ModeKey, CheckidSetup, ReturnToKey, redirectUri,
           RealmKey, redirectUri, IdentityKey, IdentifierSelect, ClaimedIdKey, IdentifierSelect);
  }

  /**
   * The redirect is a 302 whose `Location` is the login URL followed by the
   * six fields, form-encoded in source order; it depends on the callback URL
   * alone.
   */
  lemma RedirectResponse(request: HttpRequest, other: HttpRequest, redirectUri: string)
    ensures RedirectToProviderAuthPage(request, redirectUri).statusCode == 302
    ensures RedirectToProviderAuthPage(request, redirectUri).contentType == FormContentType
    ensures ParseLocation(RedirectToProviderAuthPage(request, redirectUri).location)
         == Some((LoginUrl, RedirectItems(redirectUri)))
    ensures RedirectToProviderAuthPage(request, redirectUri) == RedirectToProviderAuthPage(other, redirectUri)
  {
    RedirectLocation(request, redirectUri);
    LocationRoundTrip(RedirectItems(redirectUri));
  }

  lemma RedirectLocation(request: HttpRequest, redirectUri: string)
    ensures RedirectToProviderAuthPage(request, redirectUri).location
         == LoginUrl + "?" + Urlencode(RedirectItems(redirectUri))
  {
    RedirectQueryItems(redirectUri);
  }

  /** A login URL with a form-encoded query decodes back into the URL and the pairs. */
  lemma LocationRoundTrip(pairs: seq<(string, string)>)
    ensures ParseLocation(LoginUrl + "?" + Urlencode(pairs)) == Some((LoginUrl, pairs))
  {
    var query := Urlencode(pairs);
    UrlencodeBars(pairs, '?');
    assert '?' !in LoginUrl;
    SplitPair(LoginUrl, query, '?');
    UrlencodeRoundTrip(pairs);
  }

  // ---------------------------------------------------------------------
  // Direct verification payload

  /** Python `query_params[key]`. */
  function Lookup(q: map<string, string>, key: string): (r: Result<string, KeyError>)
    ensures r.Success? <==> key in q
    ensures r.Success? ==> r.value == q[key]
    ensures r.Failure? ==> r.error == KeyError(key)
  {
    if key in q then Success(q[key]) else Failure(KeyError(key))
  }

  predicate HasRequiredFields(q: map<string, string>) {
    AssocHandleKey in q && SignedKey in q && SigKey in q && NsKey in q
  }

  /** The dict display of the four required fields, one assignment per entry. */
  function RequiredDict(assocHandle: string, signed: string, sig: string, ns: string): Dict {
    var d := Insert(Empty, AssocHandleKey, assocHandle);
    var d := Insert(d, SignedKey, signed);
    var d := Insert(d, SigKey, sig);
    Insert(d, NsKey, ns)
  }

  /** The four-field display holds the four fields, in the order written. */
  lemma RequiredDictShape(assocHandle: string, signed: string, sig: string, ns: string)
    ensures RequiredDict(assocHandle, signed, sig, ns)
         == Dict([AssocHandleKey, SignedKey, SigKey, NsKey],
                 map[AssocHandleKey := assocHandle, SignedKey := signed, SigKey := sig, NsKey := ns])
  {
    KeysDistinct();
    Display4(AssocHandleKey, assocHandle, SignedKey, signed, SigKey, sig, NsKey, ns);
  }

  /** The four-field display lists its pairs in the order written. */
  lemma RequiredDictItems(assocHandle: string, signed: string, sig: string, ns: string)
    ensures Valid(RequiredDict(assocHandle, signed, sig, ns))
    ensures Items(RequiredDict(assocHandle, signed, sig, ns))
         == [(AssocHandleKey, assocHandle), (SignedKey, signed), (SigKey, sig), (NsKey, ns)]
  {
    KeysDistinct();
    RequiredDictShape(assocHandle, signed, sig, ns);
    Items4(AssocHandleKey, assocHandle, SignedKey, signed, SigKey, sig, NsKey, ns);
  }

  /** The four required fields, looked up in source order. */
  function RequiredPayload(q: map<string, string>): (r: Result<Dict, KeyError>)
    ensures r.Success? <==> HasRequiredFields(q)
    ensures r.Success? ==> Valid(r.value)
  {
    var assocHandle :- Lookup(q, AssocHandleKey);
    var signed :- Lookup(q, SignedKey);
    var sig :- Lookup(q, SigKey);
    var ns :- Lookup(q, NsKey);
    RequiredDictItems(assocHandle, signed, sig, ns);
    Success(RequiredDict(assocHandle, signed, sig, ns))
  }

  /** The names listed in `openid.signed`, split on commas. */
  function SignedNames(q: map<string, string>): seq<string>
    requires SignedKey in q
  {
    Split(q[SignedKey], ',')
  }

  /**
   * One iteration of the loop over signed names: look up `openid.<p>` and
   * add it unless its callback VALUE is already a key of the payload.
   */
  function SignedStep(q: map<string, string>, d: Dict, p: string): (r: Result<Dict, KeyError>)
    ensures r.Success? <==> Prefix + p in q
  {
    var key := Prefix + p;
    var value :- Lookup(q, key);
    if value !in d.entries then Success(Insert(d, key, value)) else Success(d)
  }

  /** The loop over the signed names, left to right. */
  function AddSigned(q: map<string, string>, d: Dict, names: seq<string>): Result<Dict, KeyError>
    decreases |names|
  {
    if names == [] then Success(d)
    else
      var next :- SignedStep(q, d, names[0]);
      AddSigned(q, next, names[1..])
  }

  /** The `check_authentication` payload `_query_params_is_valid` POSTs. */
  function ValidationPayload(q: map<string, string>): (r: Result<Dict, KeyError>)
    ensures r.Success? ==> Valid(r.value)
  {
    var base :- RequiredPayload(q);
    var signed :- AddSigned(q, base, SignedNames(q));
    AddSignedValid(q, base, SignedNames(q));
    InsertValid(signed, ModeKey, CheckAuthentication);
    Success(Insert(signed, ModeKey, CheckAuthentication))
  }

  // ---------------------------------------------------------------------
  // Properties of the payload

  /** `m` agrees with `q` on every key of `m`. */
  predicate SubMap(m: map<string, string>, q: map<string, string>) {
    forall k :: k in m ==> k in q && m[k] == q[k]
  }

  /** Every key of the dict is an `openid.` parameter. */
  predicate AllPrefixed(d: Dict) {
    forall k :: k in d.entries ==> StartsWith(k, Prefix)
  }

  /** `names[j]` is the first signed name whose parameter the callback lacks. */
  predicate FirstMissing(q: map<string, string>, names: seq<string>, j: int) {
    && 0 <= j < |names|
    && Prefix + names[j] !in q
    && forall i :: 0 <= i < j ==> Prefix + names[i] in q
  }

  /** The payload starts as the four required fields with the callback's values. */
  lemma RequiredPayloadFields(q: map<string, string>)
    requires HasRequiredFields(q)
    ensures RequiredPayload(q).value.entries.Keys == {AssocHandleKey, SignedKey, SigKey, NsKey}
    ensures SubMap(RequiredPayload(q).value.entries, q)
    ensures AllPrefixed(RequiredPayload(q).value)
  {
    RequiredPayloadValue(q);
    RequiredDictShape(q[AssocHandleKey], q[SignedKey], q[SigKey], q[NsKey]);
    PrefixedKeys();
    Restriction4(RequiredPayload(q).value, q, AssocHandleKey, SignedKey, SigKey, NsKey);
  }

  /** A dict whose four entries are copied from `q` is a sub-map of `q` made of those keys. */
  lemma Restriction4(d: Dict, q: map<string, string>, k1: string, k2: string, k3: string, k4: string)
    requires k1 in q && k2 in q && k3 in q && k4 in q
    requires d.entries == map[k1 := q[k1], k2 := q[k2], k3 := q[k3], k4 := q[k4]]
    requires StartsWith(k1, Prefix) && StartsWith(k2, Prefix) && StartsWith(k3, Prefix) && StartsWith(k4, Prefix)
    ensures d.entries.Keys == {k1, k2, k3, k4}
    ensures SubMap(d.entries, q)
    ensures AllPrefixed(d)
  {
  }

  lemma RequiredPayloadValue(q: map<string, string>)
    requires HasRequiredFields(q)
    ensures RequiredPayload(q) == Success(RequiredDict(q[AssocHandleKey], q[SignedKey], q[SigKey], q[NsKey]))
  {
  }

  /**
   * One loop step adds `openid.<p>`, with the callback's value, exactly when
   * that value is not already a payload key; otherwise the payload is left
   * as it was. A key already present with the same value is left unchanged
   * either way.
   */
  lemma SignedStepAdds(q: map<string, string>, d: Dict, p: string)
    requires Prefix + p in q
    ensures SignedStep(q, d, p).Success?
    ensures q[Prefix + p] !in d.entries ==> SignedStep(q, d, p).value == Insert(d, Prefix + p, q[Prefix + p])
    ensures q[Prefix + p] in d.entries ==> SignedStep(q, d, p).value == d
    ensures SubMap(d.entries, q) && Prefix + p in d.entries ==> SignedStep(q, d, p).value == d
  {
    var key := Prefix + p;
    if q[key] !in d.entries && key in d.entries && SubMap(d.entries, q) {
      InsertSame(d, key);
    }
  }

  /** The loop keeps the payload well formed. */
  lemma {:induction false} AddSignedValid(q: map<string, string>, d: Dict, names: seq<string>)
    requires Valid(d) && AddSigned(q, d, names).Success?
    ensures Valid(AddSigned(q, d, names).value)
    decreases |names|
  {
    if names != [] {
      var key := Prefix + names[0];
      var next := SignedStep(q, d, names[0]).value;
      if q[key] !in d.entries {
        InsertValid(d, key, q[key]);
      }
      AddSignedValid(q, next, names[1..]);
    }
  }

  /**
   * The loop keeps the payload a sub-map of the callback made of `openid.`
   * keys, and never loses a key or changes its value.
   */
  lemma {:induction false} AddSignedSubMap(q: map<string, string>, d: Dict, names: seq<string>)
    requires SubMap(d.entries, q) && AllPrefixed(d)
    requires AddSigned(q, d, names).Success?
    ensures SubMap(AddSigned(q, d, names).value.entries, q)
    ensures AllPrefixed(AddSigned(q, d, names).value)
    ensures SubMap(d.entries, AddSigned(q, d, names).value.entries)
    decreases |names|
  {
    if names != [] {
      var next := SignedStep(q, d, names[0]).value;
      ConcatStartsWith(Prefix, names[0]);
      SignedStepAdds(q, d, names[0]);
      AddSignedSubMap(q, next, names[1..]);
    }
  }

  /** The loop adds signed parameters only. */
  lemma {:induction false} AddSignedOnly(q: map<string, string>, d: Dict, names: seq<string>)
    requires AddSigned(q, d, names).Success?
    ensures forall k :: k in AddSigned(q, d, names).value.entries ==>
      k in d.entries || exists i :: 0 <= i < |names| && k == Prefix + names[i]
    decreases |names|
  {
    if names != [] {
      var next := SignedStep(q, d, names[0]).value;
      SignedStepAdds(q, d, names[0]);
      AddSignedOnly(q, next, names[1..]);
      var r := AddSigned(q, next, names[1..]).value;
      forall k | k in r.entries
        ensures k in d.entries || exists i :: 0 <= i < |names| && k == Prefix + names[i]
      {
        if k !in next.entries {
          var i :| 0 <= i < |names[1..]| && k == Prefix + names[1..][i];
          assert k == Prefix + names[i + 1];
        } else if k !in d.entries {
          assert k == Prefix + names[0];
        }
      }
    }
  }

  /**
   * Every signed parameter whose callback value is not an `openid.` name
   * cannot collide with a payload key, so the loop adds it.
   */
  lemma {:induction false} AddSignedAdds(q: map<string, string>, d: Dict, names: seq<string>)
    requires SubMap(d.entries, q) && AllPrefixed(d)
    requires AddSigned(q, d, names).Success?
    ensures forall i :: 0 <= i < |names| && Prefix + names[i] in q && !StartsWith(q[Prefix + names[i]], Prefix) ==>
      Prefix + names[i] in AddSigned(q, d, names).value.entries
    decreases |names|
  {
    if names != [] {
      var key := Prefix + names[0];
      var next := SignedStep(q, d, names[0]).value;
      ConcatStartsWith(Prefix, names[0]);
      SignedStepAdds(q, d, names[0]);
      AddSignedAdds(q, next, names[1..]);
      AddSignedSubMap(q, next, names[1..]);
      forall i | 0 <= i < |names| && Prefix + names[i] in q && !StartsWith(q[Prefix + names[i]], Prefix)
        ensures Prefix + names[i] in AddSigned(q, d, names).value.entries
      {
        if i > 0 { assert names[i] == names[1..][i - 1]; }
      }
    }
  }

  /** The loop fails exactly when some signed parameter is missing, naming the first. */
  lemma {:induction false} AddSignedFailure(q: map<string, string>, d: Dict, names: seq<string>)
    ensures AddSigned(q, d, names).Failure? <==> exists i :: 0 <= i < |names| && Prefix + names[i] !in q
    ensures AddSigned(q, d, names).Failure? ==>
      exists j :: FirstMissing(q, names, j) && AddSigned(q, d, names).error == KeyError(Prefix + names[j])
    decreases |names|
  {
    if names != [] {
      if Prefix + names[0] !in q {
        assert FirstMissing(q, names, 0);
      } else {
        var next := SignedStep(q, d, names[0]).value;
        AddSignedFailure(q, next, names[1..]);
        assert AddSigned(q, d, names) == AddSigned(q, next, names[1..]);
        if exists i :: 0 <= i < |names| && Prefix + names[i] !in q {
          var i :| 0 <= i < |names| && Prefix + names[i] !in q;
          assert names[1..][i - 1] == names[i];
        }
        if AddSigned(q, d, names).Failure? {
          var j :| FirstMissing(q, names[1..], j) && AddSigned(q, next, names[1..]).error == KeyError(Prefix + names[1..][j]);
          assert names[1..][j] == names[j + 1];
          forall i | 0 <= i < j + 1 ensures Prefix + names[i] in q {
            if i > 0 { assert names[i] == names[1..][i - 1]; }
          }
          assert FirstMissing(q, names, j + 1);
        } else {
          forall i | 0 <= i < |names| ensures Prefix + names[i] in q {
            if i > 0 { assert names[i] == names[1..][i - 1]; }
          }
        }
      }
    }
  }

  /**
   * The payload holds the four required fields and every other callback field
   * it holds with the callback's value; its `openid.mode` is
   * `check_authentication` whatever mode the callback carried.
   */
  lemma PayloadFields(q: map<string, string>)
    requires ValidationPayload(q).Success?
    ensures HasRequiredFields(q)
    ensures var p := ValidationPayload(q).value.entries;
      && AssocHandleKey in p && p[AssocHandleKey] == q[AssocHandleKey]
      && SignedKey in p && p[SignedKey] == q[SignedKey]
      && SigKey in p && p[SigKey] == q[SigKey]
      && NsKey in p && p[NsKey] == q[NsKey]
      && ModeKey in p && p[ModeKey] == CheckAuthentication
      && (forall k :: k in p && k != ModeKey ==> k in q && p[k] == q[k])
      && (forall k :: k in p ==> StartsWith(k, Prefix))
  {
    var base := RequiredPayload(q).value;
    PayloadUnfold(q);
    RequiredPayloadFields(q);
    AddSignedSubMap(q, base, SignedNames(q));
    KeysDistinct();
    PrefixedKeys();
  }

  /**
   * Every signed name was looked up; the payload's keys are the required
   * fields, the mode and signed parameters only; and every signed parameter
   * whose callback value does not start with `openid.` is in the payload.
   */
  lemma PayloadSignedKeys(q: map<string, string>)
    requires ValidationPayload(q).Success?
    ensures HasRequiredFields(q)
    ensures forall i :: 0 <= i < |SignedNames(q)| ==> Prefix + SignedNames(q)[i] in q
    ensures forall k :: k in ValidationPayload(q).value.entries ==>
      k in {AssocHandleKey, SignedKey, SigKey, NsKey, ModeKey}
      || exists i :: 0 <= i < |SignedNames(q)| && k == Prefix + SignedNames(q)[i]
    ensures forall i :: 0 <= i < |SignedNames(q)| && !StartsWith(q[Prefix + SignedNames(q)[i]], Prefix) ==>
      Prefix + SignedNames(q)[i] in ValidationPayload(q).value.entries
  {
    var base := RequiredPayload(q).value;
    var signed := AddSigned(q, base, SignedNames(q)).value;
    PayloadUnfold(q);
    RequiredPayloadFields(q);
    AddSignedFailure(q, base, SignedNames(q));
    AddSignedOnly(q, base, SignedNames(q));
    AddSignedAdds(q, base, SignedNames(q));
    KeysBound(SignedNames(q), base, signed, ValidationPayload(q).value);
  }

  lemma KeysBound(names: seq<string>, base: Dict, signed: Dict, p: Dict)
    requires base.entries.Keys == {AssocHandleKey, SignedKey, SigKey, NsKey}
    requires forall k :: k in signed.entries ==> k in base.entries || exists i :: 0 <= i < |names| && k == Prefix + names[i]
    requires p.entries == signed.entries[ModeKey := CheckAuthentication]
    ensures forall k :: k in p.entries ==>
      k in {AssocHandleKey, SignedKey, SigKey, NsKey, ModeKey} || exists i :: 0 <= i < |names| && k == Prefix + names[i]
  {
  }

  /** The payload is the looped-over dict with the mode overridden. */
  lemma PayloadUnfold(q: map<string, string>)
    requires ValidationPayload(q).Success?
    ensures HasRequiredFields(q)
    ensures AddSigned(q, RequiredPayload(q).value, SignedNames(q)).Success?
    ensures ValidationPayload(q).value.entries
         == AddSigned(q, RequiredPayload(q).value, SignedNames(q)).value.entries[ModeKey := CheckAuthentication]
  {
  }

  /**
   * A missing required field fails the verification with the `KeyError`
   * of the first one missing, in the order assoc_handle, signed, sig, ns.
   */
  lemma RequiredFieldMissing(q: map<string, string>)
    ensures ValidationPayload(q).Failure? <==>
      !HasRequiredFields(q) || exists i :: 0 <= i < |SignedNames(q)| && Prefix + SignedNames(q)[i] !in q
    ensures AssocHandleKey !in q ==> ValidationPayload(q) == Failure(KeyError(AssocHandleKey))
    ensures AssocHandleKey in q && SignedKey !in q ==> ValidationPayload(q) == Failure(KeyError(SignedKey))
    ensures AssocHandleKey in q && SignedKey in q && SigKey !in q ==> ValidationPayload(q) == Failure(KeyError(SigKey))
    ensures AssocHandleKey in q && SignedKey in q && SigKey in q && NsKey !in q ==> ValidationPayload(q) == Failure(KeyError(NsKey))
  {
    if HasRequiredFields(q) {
      AddSignedFailure(q, RequiredPayload(q).value, SignedNames(q));
    }
  }

  /**
   * With the required fields present, a verification failure is the
   * `KeyError` of the first signed name whose `openid.<name>` is missing.
   */
  lemma SignedFieldMissing(q: map<string, string>)
    requires HasRequiredFields(q)
    ensures ValidationPayload(q).Failure? <==> exists i :: 0 <= i < |SignedNames(q)| && Prefix + SignedNames(q)[i] !in q
    ensures ValidationPayload(q).Failure? ==>
      exists j :: FirstMissing(q, SignedNames(q), j) && ValidationPayload(q).error == KeyError(Prefix + SignedNames(q)[j])
  {
    AddSignedFailure(q, RequiredPayload(q).value, SignedNames(q));
  }

  /**
   * Because line 47 tests the VALUE against the payload's keys, a signed
   * parameter whose value happens to be the name of a required field is left
   * out of the payload. Here `openid.signed` lists the one name `p`, and
   * `openid.<p>` is signed but not sent.
   */
  lemma ValueCollisionDropsSignedParam(q: map<string, string>, p: string)
    requires HasRequiredFields(q)
    requires q[SignedKey] == p && ',' !in p
    requires Prefix + p in q && q[Prefix + p] in {AssocHandleKey, SignedKey, SigKey, NsKey}
    requires Prefix + p !in {AssocHandleKey, SignedKey, SigKey, NsKey, ModeKey}
    ensures SignedNames(q) == [p]
    ensures ValidationPayload(q).Success?
    ensures Prefix + p !in ValidationPayload(q).value.entries
  {
    var base := RequiredPayload(q).value;
    SplitNoSep(p, ',');
    RequiredPayloadHas(q, q[Prefix + p]);
    CollidingPayload(q, p);
    assert Prefix + p !in {AssocHandleKey, SignedKey, SigKey, NsKey} && Prefix + p != ModeKey;
    RequiredPayloadHas(q, Prefix + p);
    assert Prefix + p !in base.entries;
  }

  /** The base payload holds exactly the four required field names. */
  lemma RequiredPayloadHas(q: map<string, string>, k: string)
    requires HasRequiredFields(q)
    ensures k in RequiredPayload(q).value.entries <==> k in {AssocHandleKey, SignedKey, SigKey, NsKey}
  {
    RequiredPayloadValue(q);
    RequiredDictShape(q[AssocHandleKey], q[SignedKey], q[SigKey], q[NsKey]);
  }

  /** A single signed name whose value is a payload key leaves the base payload as it was. */
  lemma CollidingPayload(q: map<string, string>, p: string)
    requires HasRequiredFields(q)
    requires SignedNames(q) == [p]
    requires Prefix + p in q && q[Prefix + p] in RequiredPayload(q).value.entries
    ensures ValidationPayload(q) == Success(Insert(RequiredPayload(q).value, ModeKey, CheckAuthentication))
  {
    var base := RequiredPayload(q).value;
    SingleStep(q, base, p);
    SignedStepAdds(q, base, p);
    PayloadOf(q, base);
  }


  lemma SingleStep(q: map<string, string>, d: Dict, p: string)
    ensures AddSigned(q, d, [p]) == SignedStep(q, d, p)
  {
    assert [p][1..] == [];
  }

  /** When the loop succeeds, the payload is its result with the mode overridden. */
  lemma PayloadOf(q: map<string, string>, signed: Dict)
    requires HasRequiredFields(q)
    requires AddSigned(q, RequiredPayload(q).value, SignedNames(q)) == Success(signed)
    ensures ValidationPayload(q) == Success(Insert(signed, ModeKey, CheckAuthentication))
  {
  }

  // ---------------------------------------------------------------------
  // The client's operations

  /**
   * `_query_params_is_valid`: builds the payload in place, POSTs it to the
   * login URL and looks for `is_valid:true` in the answer. `sent` records the
   * POSTs made.
   */
  method QueryParamsIsValid(queryParams: map<string, string>, post: Transport)
    returns (r: Result<bool, KeyError>, sent: seq<PostRequest>)
    ensures match ValidationPayload(queryParams)
      case Failure(e) => r == Failure(e) && sent == []
      case Success(payload) =>
        && sent == [PostRequest(LoginUrl, Urlencode(Items(payload)))]
        && r == Success(Contains(post(LoginUrl, Urlencode(Items(payload))), ValidMarker))
  {
    sent := [];
    var assocHandle :- Lookup(queryParams, AssocHandleKey);
    var signed :- Lookup(queryParams, SignedKey);
    var sig :- Lookup(queryParams, SigKey);
    var ns :- Lookup(queryParams, NsKey);
    var payload := RequiredDict(assocHandle, signed, sig, ns);
    RequiredDictItems(assocHandle, signed, sig, ns);
    ghost var base := payload;
    var signedParams := Split(signed, ',');
    var i := 0;
    while i < |signedParams|
      invariant 0 <= i <= |signedParams|
      invariant Valid(payload)
      invariant AddSigned(queryParams, payload, signedParams[i..]) == AddSigned(queryParams, base, signedParams)
    {
      var openIdParam := Prefix + signedParams[i];
      assert signedParams[i..][1..] == signedParams[i + 1..];
      var value :- Lookup(queryParams, openIdParam);
      if value !in payload.entries {
        InsertValid(payload, openIdParam, value);
        payload := Insert(payload, openIdParam, value);
      }
      i := i + 1;
    }
    InsertValid(payload, ModeKey, CheckAuthentication);
    payload := Insert(payload, ModeKey, CheckAuthentication);
    var body := Urlencode(Items(payload));
    sent := [PostRequest(LoginUrl, body)];
    var text := post(LoginUrl, body);
    r := Success(Contains(text, ValidMarker));
  }

  /**
   * `handle_redirect_from_provider`: runs the verification and returns the
   * callback parameters as the user. The verdict is discarded, so only a
   * missing parameter makes it fail.
   */
  method HandleRedirectFromProvider(request: HttpRequest, post: Transport)
    returns (r: Result<Credential, KeyError>, sent: seq<PostRequest>)
    ensures match ValidationPayload(request.query)
      case Failure(e) => r == Failure(e) && sent == []
      case Success(payload) =>
        && r == Success(Credential(None, request.query))
        && sent == [PostRequest(LoginUrl, Urlencode(Items(payload)))]
  {
    var queryParams := request.query;
    var verdict;
    verdict, sent := QueryParamsIsValid(queryParams, post);
    if verdict.Failure? {
      r := Failure(verdict.error);
      return;
    }
    r := Success(Credential(None, queryParams));
  }

  /**
   * A callback the provider rejects is still accepted: the verification
   * comes out false, yet the handler returns the callback's parameters as
   * the user.
   */
  method RejectedAssertionStillAccepted(request: HttpRequest, post: Transport)
    returns (verdict: Result<bool, KeyError>, credential: Result<Credential, KeyError>)
    requires ValidationPayload(request.query).Success?
    requires !Contains(post(LoginUrl, Urlencode(Items(ValidationPayload(request.query).value))), ValidMarker)
    ensures verdict == Success(false)
    ensures credential == Success(Credential(None, request.query))
  {
    var sent;
    verdict, sent := QueryParamsIsValid(request.query, post);
    credential, sent := HandleRedirectFromProvider(request, post);
  }
}
