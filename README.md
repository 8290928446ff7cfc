# Steam OpenID 2.0 client and one-shot session store, in Dafny

This project models the two pieces of bespoke logic in a Django sample
application that signs users in through several identity providers:

- **The Steam OpenID Authentication 2.0 client** (`SteamOpenIDClient`).
  - It sends the browser to Steam's login page with a `checkid_setup` request
    that uses directed identity (section 9.1 of OpenID Authentication 2.0).
  - When Steam redirects back, the client builds a `check_authentication`
    payload from the callback's query parameters (section 11.4.2).
  - It POSTs that payload to Steam and looks for `is_valid:true` in the answer.
- **The one-shot session store** of the custom authlib integration. It is a
  module-level dict: writing a key stores a value, and reading a key pops it.

Each source file has its own module. Some helper modules model the Python
and library behaviour the client relies on:

| file | module | models |
|---|---|---|
| `steam_client.dfy` | `SteamClient` | `steam/client.py`: redirect, verification payload, verification, callback |
| `session_store.dfy` | `SessionStore` | `oauth2.py`: `SESSION_DATA` with `set_session_data` / `get_session_data` |
| `pystr.dfy` | `PyStr` | Python `str.split`, `str.join`, `str.startswith` and the substring test `in` |
| `urlencode.dfy` | `UrlEncode` | Django `urlencode` / `quote_plus` (UTF-8, `%XX`), plus a reference decoder |
| `pydict.dfy` | `PyDict` | a Python `dict[str, str]` that keeps insertion order |
| `http.dfy` | `Http` | request, response and POST values, and the transport oracle |
| `wrappers.dfy` | `Wrappers` | `Option` and a failure-compatible `Result` |

Modelling choices:

- The payload dict is built step by step in `QueryParamsIsValid`, a method
  with a `while` loop. Its contract ties the result to `ValidationPayload`, a
  function that follows the same steps. The lemmas about the payload are
  proved about that function.
- Python dicts keep insertion order. That order decides the text of the
  `Location` header and of the POST body, so `PyDict` keeps the order of keys
  beside the map.
- `requests.post(LOGIN_URL, payload).text` is a function parameter
  `post: (url, body) -> text`. The body is the form encoding of the payload
  in its insertion order. The methods also return `sent`, the list of POSTs
  they made, so "no POST happens before a lookup fails" can be stated.
- A missing query parameter raises a Python `KeyError`. The model returns
  `Failure(KeyError(key))`, naming the first key whose lookup fails.
- The test at line 47 of `steam/client.py` checks whether the callback's
  **value** of `openid.<p>` is already a **key** of the payload. The model
  does exactly this. `ValueCollisionDropsSignedParam` shows a signed
  parameter that is therefore left out of the payload.
- `handle_redirect_from_provider` throws away the verification result. The
  model does the same: `HandleRedirectFromProvider` succeeds whenever every
  lookup succeeds, whatever Steam answers. `RejectedAssertionStillAccepted`
  states this outright.
- A signed name whose `openid.<p>` is missing from the callback raises
  `KeyError` at `steam/client.py:47` instead of rejecting the callback; the
  model returns that `KeyError` (`SignedFieldMissing`).
- `handle_redirect_from_provider` accepts a callback even when Steam answers
  without `is_valid:true` (`steam/client.py:34-35`).
- The session store is one `SessionData` object standing for the module-level
  dict. All integration objects share it, and every request uses it: the
  `request` argument is taken and never read, so only the store and the key
  decide each result.

## Model

| member | source | states |
|---|---|---|
| `SteamClient.RedirectQueryFields` | src/authentication_clients/steam/client.py:17-24 | the redirect dict lists exactly the keys ns, mode, return_to, realm, identity and claimed_id, in that order; ns is the OpenID 2.0 namespace, mode is `checkid_setup`, return_to and realm are the callback URL, identity and claimed_id are `identifier_select` |
| `SteamClient.RedirectQueryItems` | src/authentication_clients/steam/client.py:17-24 | the dict display is well formed and its items are its six pairs in the order written |
| `SteamClient.RedirectResponse` | src/authentication_clients/steam/client.py:26-30 | status is 302 (FOUND) and the content type is form-urlencoded; the `Location` splits into `LOGIN_URL` and a query that decodes to the six pairs in order; the response depends only on the callback URL, not on the request |
| `SteamClient.LocationRoundTrip` | src/authentication_clients/steam/client.py:27 | `LOGIN_URL?<urlencode(pairs)>` decodes back into `LOGIN_URL` and the same pairs |
| `SteamClient.RequiredDictItems` | src/authentication_clients/steam/client.py:38-43 | the four-field dict display is well formed and its items are assoc_handle, signed, sig, ns with the given values, in that order |
| `SteamClient.RequiredPayload` | src/authentication_clients/steam/client.py:38-43 | the four required lookups succeed exactly when assoc_handle, signed, sig and ns are all present |
| `SteamClient.RequiredPayloadFields` | src/authentication_clients/steam/client.py:38-43 | the initial payload has exactly the four required keys, each with the callback's value, all of them `openid.` keys |
| `SteamClient.SignedStepAdds` | src/authentication_clients/steam/client.py:46-48 | one loop step adds `openid.<p>` with the callback's value exactly when that value is not already a payload key; otherwise the payload is unchanged; a key already present with the callback's value is never changed |
| `SteamClient.AddSignedValid` | src/authentication_clients/steam/client.py:45-48 | the loop keeps the payload a well-formed dict: each key listed once, exactly the keys of the map |
| `SteamClient.AddSignedSubMap` | src/authentication_clients/steam/client.py:45-48 | loop invariant: the payload stays a sub-map of the callback made of `openid.` keys, and keeps every key it had with its value |
| `SteamClient.AddSignedOnly` | src/authentication_clients/steam/client.py:45-48 | the loop adds no key other than `openid.<p>` for a signed name `p` |
| `SteamClient.AddSignedAdds` | src/authentication_clients/steam/client.py:45-48 | every signed parameter whose callback value is not an `openid.` name ends up in the payload |
| `SteamClient.AddSignedFailure` | src/authentication_clients/steam/client.py:45-47 | the loop fails exactly when some `openid.<p>` is missing from the callback, and the error names the first such `p` |
| `SteamClient.PayloadFields` | src/authentication_clients/steam/client.py:38-49 | the final payload has the four required fields with the callback's values, and `openid.mode` = `check_authentication` whatever the callback's mode; every other key is a callback key with the callback's value |
| `SteamClient.PayloadSignedKeys` | src/authentication_clients/steam/client.py:44-49 | every signed name's parameter is in the callback; the payload's keys are the required four, the mode and signed parameters only; every signed parameter whose value is not an `openid.` name is sent |
| `SteamClient.RequiredFieldMissing` | src/authentication_clients/steam/client.py:38-47 | the payload fails exactly when a required field or a signed parameter is missing; a missing required field gives the `KeyError` of the first one missing, in the order assoc_handle, signed, sig, ns |
| `SteamClient.SignedFieldMissing` | src/authentication_clients/steam/client.py:44-47 | with the required fields present, the payload fails exactly when some signed parameter is missing, with the `KeyError` of the first one in `openid.signed` order |
| `SteamClient.ValueCollisionDropsSignedParam` | src/authentication_clients/steam/client.py:47-48 | if the callback's value for a signed parameter is a required field's name, that parameter is signed but is not in the payload |
| `SteamClient.QueryParamsIsValid` | src/authentication_clients/steam/client.py:37-51 | a lookup error is returned with no POST made; otherwise exactly one POST of the form-encoded payload is made to `LOGIN_URL`, and the result is true iff the response text contains `is_valid:true` |
| `SteamClient.HandleRedirectFromProvider` | src/authentication_clients/steam/client.py:32-35 | a lookup error is returned with no POST made; otherwise the result is token `None` and user = the full callback map, whatever the verification result |
| `SteamClient.RejectedAssertionStillAccepted` | src/authentication_clients/steam/client.py:33-35 | when the provider's answer to the one POST made does not contain `is_valid:true`, the verification gives false, and the callback is still accepted with user = the callback map |
| `PyStr.Split` | src/authentication_clients/steam/client.py:44 | `split(",")` always yields at least one piece, and no piece contains the separator (so `"".split(",")` is `[""]`) |
| `PyStr.SplitLength` | src/authentication_clients/steam/client.py:44 | `split` yields one more piece than there are separators |
| `PyStr.JoinSplit` | src/authentication_clients/steam/client.py:44 | joining the pieces with the separator gives back the signed list |
| `PyStr.SplitJoin` | src/authentication_clients/steam/client.py:44 | splitting a join of separator-free pieces gives back the pieces |
| `PyStr.ContainsIff` | src/authentication_clients/steam/client.py:51 | `pat in text` holds exactly when `pat` occurs at some index of `text` |
| `PyStr.ContainsSound` | src/authentication_clients/steam/client.py:51 | the left-to-right search reports only real occurrences |
| `PyStr.ContainsComplete` | src/authentication_clients/steam/client.py:51 | the search misses no occurrence |
| `UrlEncode.Utf8RoundTrip` | src/authentication_clients/steam/client.py:27 | the UTF-8 bytes `quote_plus` escapes decode back to the character, and the lead byte gives the sequence length |
| `UrlEncode.QuotePlusRoundTrip` | src/authentication_clients/steam/client.py:27 | decoding a `quote_plus` output gives back the original string |
| `UrlEncode.UrlencodeBars` | src/authentication_clients/steam/client.py:27 | a form-encoded query never contains `?` or any other character outside the safe set, `+`, `%`, `=` and `&` |
| `UrlEncode.UrlencodeRoundTrip` | src/authentication_clients/steam/client.py:27 | parsing `urlencode(pairs)` gives back the same pairs in the same order |
| `PyDict.InsertSame` | src/authentication_clients/steam/client.py:48 | assigning a key the value it already has leaves the dict unchanged |
| `PyDict.InsertItems` | src/authentication_clients/steam/client.py:48-49 | a new key is appended last; an existing key keeps its position and only its value changes |
| `PyDict.InsertValid` | src/authentication_clients/steam/client.py:48-49 | assignment keeps a dict well formed, binds the key to the value and adds exactly that key |
| `PyDict.Display4` | src/authentication_clients/steam/client.py:38-43 | a four-entry dict display with distinct keys lists them in the order written, each with its value |
| `PyDict.Display6` | src/authentication_clients/steam/client.py:17-24 | a six-entry dict display with distinct keys lists them in the order written, each with its value |
| `SessionStore.SessionData.constructor` | src/authentication_clients/oauth2.py:4 | the module-level store starts empty |
| `SessionStore.SessionData.SetSessionData` | src/authentication_clients/oauth2.py:8-10 | afterwards the key maps to the new value, whatever it held before; every other key is unchanged; the request is not read |
| `SessionStore.SessionData.GetSessionData` | src/authentication_clients/oauth2.py:12-15 | a present key's value is returned and the key removed; an absent key gives `None` and leaves the store unchanged; every other key is unchanged; the request is not read |
| `SessionStore.OneShotRead` | src/authentication_clients/oauth2.py:8-15 | a set followed by two gets returns the value and then `None`; the store ends as before, minus the key |

## Left out

- The authlib-backed clients (Google, Twitch, the custom OAuth2 and OIDC providers): they only call into authlib, and the token exchange and ID-token checks happen in library code.
- `MyRemoteApp.save_authorize_data`, the `OAuth` class and `get_oauth2` in `oauth2.py`: they only delegate to authlib or build its object.
- Django settings, URL routing, the login/callback views, the credentials signal and the template views: framework wiring with no logic of its own.
- The abstract `Client` base class: it only raises `NotImplementedError`.
- The duplicate `MyIntegration` in the sample project's `views.py`: it repeats the same code over its own module-level `SESSION_DATA` (`views.py:12`), so the `SessionStore` model describes it as well.
- The `print` logging in `steam/client.py` and `oauth2.py`.
- The network itself: `requests.post` is a function parameter. Its exceptions (connection errors, timeouts) and the decoding of `response.text` are not modelled.
- `request.GET.dict()`: the callback is taken as a string-to-string map. Django's rule that the last of several repeated parameters wins is not modelled.
- `UrlEncode.UnquotePlus` and `UrlEncode.ParseQuery` are this model's own strict decoders, given as the partners of the encoder. They are not Python's lenient `unquote_plus` / `parse_qsl`, which for one also drops blank values.
- `SessionStore.SessionData.GetSessionData`: in Python a stored `None` cannot be told apart from a missing key, because `pop(key, None)` returns `None` for both. The model's `Option` keeps the two apart, and the value type is a type parameter rather than any Python object.
- Concurrency: the shared dict is used from many requests at once. The model treats each call as atomic.
