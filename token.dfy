/** The access-token search of content_extract_token.js. It walks the page's
    localStorage and then its sessionStorage, entry by entry in iteration
    order, and returns the first token that qualifies together with the
    storage and key it came from. Each storage is an ordered list of
    (key, value) pairs; `JSON.parse` is represented by `accessTokenOf`, which
    gives the string `accessToken` field of the object a value parses to, and
    nothing when the value does not parse, is not an object, or has no such
    string field. */
module TokenExtract {
  import opened Wrappers
  import opened Text

  /** The first characters of a base64url-encoded JSON object, as every JWT begins. */
  const JwtPrefix := "eyJ"

  const LocalSource := "localStorage:"
  const SessionSource := "sessionStorage:"

  /** The entries of one storage, in the order `key(i)` yields them. */
  type Storage = seq<(string, string)>

  /** `{ token, source }`; `NotFound` is `{ token: null, source: null }`. */
  datatype Extraction = Found(token: string, source: string) | NotFound

  /** An entry is passed over when its value is empty or its lower-cased key
      contains "id_token". */
  predicate Skipped(key: string, val: string) {
    val == [] || Contains(Lower(key), "id_token")
  }

  /** A token found inside the parsed value: its `accessToken` string, when it starts with the JWT prefix. */
  function ParsedToken(val: string, accessTokenOf: string -> Option<string>): (r: Option<string>)
    ensures r.Some? <==> accessTokenOf(val).Some? && StartsWith(accessTokenOf(val).value, JwtPrefix)
    ensures r.Some? ==> r == accessTokenOf(val)
  {
    match accessTokenOf(val)
    case Some(t) => if StartsWith(t, JwtPrefix) then Some(t) else None
    case None => None
  }

  /** The token a localStorage entry yields: under a key containing "access",
      the raw value itself when it starts with the JWT prefix, and otherwise,
      under any key, the parsed `accessToken`. */
  function LocalCandidate(key: string, val: string, accessTokenOf: string -> Option<string>): (r: Option<string>)
    ensures r.Some? ==> !Skipped(key, val) && StartsWith(r.value, JwtPrefix)
    ensures r.Some? ==>
      (Contains(Lower(key), "access") && r.value == val) || accessTokenOf(val) == Some(r.value)
    ensures !Skipped(key, val) && Contains(Lower(key), "access") && StartsWith(val, JwtPrefix) ==> r == Some(val)
    ensures r.None? <==> (Skipped(key, val) ||
      (!(Contains(Lower(key), "access") && StartsWith(val, JwtPrefix)) && ParsedToken(val, accessTokenOf).None?))
  {
    if Skipped(key, val) then None
    else if Contains(Lower(key), "access") && StartsWith(val, JwtPrefix) then Some(val)
    else ParsedToken(val, accessTokenOf)
  }

  /** The token a sessionStorage entry yields: only ever the parsed `accessToken`. */
  function SessionCandidate(key: string, val: string, accessTokenOf: string -> Option<string>): (r: Option<string>)
    ensures r.Some? ==> !Skipped(key, val) && StartsWith(r.value, JwtPrefix) && accessTokenOf(val) == Some(r.value)
    ensures r.None? <==> Skipped(key, val) || ParsedToken(val, accessTokenOf).None?
  {
    if Skipped(key, val) then None else ParsedToken(val, accessTokenOf)
  }

  function LocalRule(accessTokenOf: string -> Option<string>): (string, string) -> Option<string> {
    (key, val) => LocalCandidate(key, val, accessTokenOf)
  }

  function SessionRule(accessTokenOf: string -> Option<string>): (string, string) -> Option<string> {
    (key, val) => SessionCandidate(key, val, accessTokenOf)
  }

  /** The position of the first entry of `store` that `rule` accepts, with
      the token it yields: every earlier entry is rejected, and there is no
      result exactly when every entry is rejected. */
  function FirstMatch(store: Storage, rule: (string, string) -> Option<string>): (r: Option<(int, string)>)
    ensures r.None? <==> forall i :: 0 <= i < |store| ==> rule(store[i].0, store[i].1).None?
    ensures r.Some? ==>
      && 0 <= r.value.0 < |store|
      && rule(store[r.value.0].0, store[r.value.0].1) == Some(r.value.1)
      && forall i :: 0 <= i < r.value.0 ==> rule(store[i].0, store[i].1).None?
  {
    if store == [] then None
    else
      match rule(store[0].0, store[0].1)
      case Some(t) => Some((0, t))
      case None =>
        var rest := FirstMatch(store[1..], rule);
        if rest.Some? then Some((rest.value.0 + 1, rest.value.1)) else None
  }

  /** The entry at `i` is the first one `rule` accepts. */
  predicate FirstAcceptedAt(store: Storage, rule: (string, string) -> Option<string>, i: int) {
    && 0 <= i < |store|
    && rule(store[i].0, store[i].1).Some?
    && forall k :: 0 <= k < i ==> rule(store[k].0, store[k].1).None?
  }

  /** The first accepted entry is the one `FirstMatch` reports. */
  lemma FirstMatchIsFirstAccepted(store: Storage, rule: (string, string) -> Option<string>, i: int)
    requires FirstAcceptedAt(store, rule, i)
    ensures FirstMatch(store, rule) == Some((i, rule(store[i].0, store[i].1).value))
  {
    assert FirstMatch(store, rule).Some?;
  }

  /** The result of the whole search: the first qualifying localStorage
      entry, else the first qualifying sessionStorage entry, else nothing.
      A found token starts with the JWT prefix and comes from an entry with a
      non-empty value whose key does not contain "id_token"; a raw value is
      taken only from a localStorage key containing "access", every other
      token is a parsed `accessToken`; and the source names the storage and
      the key. */
  function SelectToken(local: Storage, session: Storage, accessTokenOf: string -> Option<string>): (r: Extraction)
    ensures r.Found? ==> StartsWith(r.token, JwtPrefix)
    ensures r.Found? ==>
      (exists i :: (0 <= i < |local| && r.source == LocalSource + local[i].0 && !Skipped(local[i].0, local[i].1) &&
         ((Contains(Lower(local[i].0), "access") && r.token == local[i].1) || accessTokenOf(local[i].1) == Some(r.token))))
      || (exists j :: (0 <= j < |session| && r.source == SessionSource + session[j].0 && !Skipped(session[j].0, session[j].1) &&
         accessTokenOf(session[j].1) == Some(r.token)))
  {
    match FirstMatch(local, LocalRule(accessTokenOf))
    case Some((i, t)) => Found(t, LocalSource + local[i].0)
    case None =>
      match FirstMatch(session, SessionRule(accessTokenOf))
      case Some((j, t)) => Found(t, SessionSource + session[j].0)
      case None => NotFound
  }

  /** The search, with its two index loops, its `continue` skips and its
      early returns. */
  method ExtractToken(local: Storage, session: Storage, accessTokenOf: string -> Option<string>) returns (r: Extraction)
    ensures r == SelectToken(local, session, accessTokenOf)
  {
    for i := 0 to |local|
      invariant forall k :: 0 <= k < i ==> LocalCandidate(local[k].0, local[k].1, accessTokenOf).None?
    {
      var (key, val) := local[i];
      if val == [] {
        continue;
      }
      if Contains(Lower(key), "id_token") {
        continue;
      }
      if Contains(Lower(key), "access") {
        if StartsWith(val, JwtPrefix) {
          FirstMatchIsFirstAccepted(local, LocalRule(accessTokenOf), i);
          return Found(val, LocalSource + key);
        }
        var parsed := accessTokenOf(val);
        if parsed.Some? && StartsWith(parsed.value, JwtPrefix) {
          FirstMatchIsFirstAccepted(local, LocalRule(accessTokenOf), i);
          return Found(parsed.value, LocalSource + key);
        }
      }
      var parsed := accessTokenOf(val);
      if parsed.Some? && StartsWith(parsed.value, JwtPrefix) {
        FirstMatchIsFirstAccepted(local, LocalRule(accessTokenOf), i);
        return Found(parsed.value, LocalSource + key);
      }
    }
    for j := 0 to |session|
      invariant forall k :: 0 <= k < j ==> SessionCandidate(session[k].0, session[k].1, accessTokenOf).None?
    {
      var (key, val) := session[j];
      if val == [] {
        continue;
      }
      if Contains(Lower(key), "id_token") {
        continue;
      }
      var parsed := accessTokenOf(val);
      if parsed.Some? && StartsWith(parsed.value, JwtPrefix) {
        FirstMatchIsFirstAccepted(session, SessionRule(accessTokenOf), j);
        return Found(parsed.value, SessionSource + key);
      }
    }
    return NotFound;
  }

  /** The order of the search: the first qualifying localStorage entry wins;
      sessionStorage is consulted only when no localStorage entry qualifies,
      and then its first qualifying entry wins; nothing is found exactly when
      no entry of either storage qualifies. */
  lemma SearchOrder(local: Storage, session: Storage, accessTokenOf: string -> Option<string>)
    ensures forall i :: FirstAcceptedAt(local, LocalRule(accessTokenOf), i) ==>
      SelectToken(local, session, accessTokenOf) ==
        Found(LocalCandidate(local[i].0, local[i].1, accessTokenOf).value, LocalSource + local[i].0)
    ensures (forall i :: 0 <= i < |local| ==> LocalCandidate(local[i].0, local[i].1, accessTokenOf).None?) ==>
      forall j :: FirstAcceptedAt(session, SessionRule(accessTokenOf), j) ==>
        SelectToken(local, session, accessTokenOf) ==
          Found(SessionCandidate(session[j].0, session[j].1, accessTokenOf).value, SessionSource + session[j].0)
    ensures SelectToken(local, session, accessTokenOf) == NotFound <==>
      (forall i :: 0 <= i < |local| ==> LocalCandidate(local[i].0, local[i].1, accessTokenOf).None?) &&
      (forall j :: 0 <= j < |session| ==> SessionCandidate(session[j].0, session[j].1, accessTokenOf).None?)
  {
    forall i | FirstAcceptedAt(local, LocalRule(accessTokenOf), i) {
      FirstMatchIsFirstAccepted(local, LocalRule(accessTokenOf), i);
    }
    forall j | FirstAcceptedAt(session, SessionRule(accessTokenOf), j) {
      FirstMatchIsFirstAccepted(session, SessionRule(accessTokenOf), j);
    }
  }
}
