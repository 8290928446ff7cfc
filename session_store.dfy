/**
 * The one-shot session store of the custom authlib integration: a single
 * module-level dict shared by every integration object and every request.
 * Writing a key stores a value; reading a key pops it.
 */
module SessionStore {
  import opened Wrappers
  import opened Http

  /** The module-level `SESSION_DATA` dict; every call goes to this one object. */
  class SessionData<V> {
    var data: map<string, V>

    /** The dict starts empty at import time. */
    constructor ()
      ensures data == map[]
    {
      data := map[];
    }

    /** `set_session_data`: stores `value` under `key`, whatever was there; the request is not consulted. */
    method SetSessionData(request: HttpRequest, key: string, value: V)
      modifies this
      ensures key in data && data[key] == value
      ensures forall k :: k != key ==> (k in data <==> k in old(data))
      ensures forall k :: k != key && k in data ==> data[k] == old(data)[k]
    {
      data := data[key := value];
    }

    /**
     * `get_session_data`: `SESSION_DATA.pop(key, None)`. A present key is
     * returned and removed; an absent key gives `None` and changes nothing.
     * The request is not consulted.
     */
    method GetSessionData(request: HttpRequest, key: string) returns (val: Option<V>)
      modifies this
      ensures key in old(data) ==> val == Some(old(data)[key])
      ensures key !in old(data) ==> val == None && data == old(data)
      ensures key !in data
      ensures forall k :: k != key ==> (k in data <==> k in old(data))
      ensures forall k :: k != key && k in data ==> data[k] == old(data)[k]
    {
      if key in data {
        val := Some(data[key]);
        data := data - {key};
      } else {
        val := None;
      }
    }
  }

  /**
   * A value written under a key can be read back once: the first read
   * returns it, the next one returns `None`, and the other keys keep their
   * earlier values.
   */
  method OneShotRead<V>(store: SessionData<V>, request: HttpRequest, key: string, value: V)
    returns (first: Option<V>, second: Option<V>)
    modifies store
    ensures first == Some(value)
    ensures second == None
    ensures store.data == old(store.data) - {key}
  {
    store.SetSessionData(request, key, value);
    first := store.GetSessionData(request, key);
    second := store.GetSessionData(request, key);
  }
}
