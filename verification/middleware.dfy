/**
 * The API-key gate in front of the protected routes, and the response
 * writer wrapper that remembers the status code it was given.
 */
module Middleware {
  import opened Model
  import opened Stores
  import opened Wrappers

  const StatusUnauthorized := 401
  const PermissionDenied := "Permission denied"

  /** What the gate writes when it refuses a request. */
  datatype Response = Response(status: int, error: string)

  const Denied := Response(StatusUnauthorized, PermissionDenied)

  /** The answer of the key search the gate consults. */
  datatype Lookup = LookupFailed | NoUser | Found(user: User)

  /**
   * Everything one pass through the gate does: the keys it looked up, the
   * responses it wrote, and the request identities it handed to the next
   * handler.
   */
  datatype Trace = Trace(lookups: seq<string>, written: seq<Response>, next: seq<User>)

  /** The request is refused: one denial written, the next handler not run. */
  predicate Refused(g: Trace) {
    g.written == [Denied] && g.next == []
  }

  /**
   * The gate for one request carrying `key` in its API-key header (`""` when
   * the header is absent). `isUuid` stands for the UUID parser and `search`
   * for the key search.
   */
  function APIKeyValidation(key: string, isUuid: string -> bool, search: string -> Lookup): (g: Trace)
    // the search runs exactly when the key is non-empty and well-formed
    ensures g.lookups == (if key != "" && isUuid(key) then [key] else [])
    // the request either is refused or reaches the next handler exactly once
    ensures Refused(g) || (g.written == [] && |g.next| == 1)
    ensures |g.next| == 1 <==> key != "" && isUuid(key) && search(key).Found?
    ensures |g.next| == 1 ==> g.next[0] == search(key).user
  {
    if key == "" then Trace([], [Denied], [])
    else if !isUuid(key) then Trace([], [Denied], [])
    else match search(key)
      case LookupFailed => Trace([key], [Denied], [])
      case NoUser => Trace([key], [Denied], [])
      case Found(u) => Trace([key], [], [u])
  }

  /** An empty or malformed key is refused before any search. */
  lemma BadKeyNeedsNoLookup(key: string, isUuid: string -> bool, search: string -> Lookup)
    requires key == "" || !isUuid(key)
    ensures Refused(APIKeyValidation(key, isUuid, search))
    ensures APIKeyValidation(key, isUuid, search).lookups == []
  {
  }

  /**
   * The four refusals (empty key, malformed key, failed search, no user)
   * write the same thing: a client cannot tell them apart.
   */
  lemma RefusalsAreIndistinguishable(k1: string, k2: string, isUuid: string -> bool, s1: string -> Lookup, s2: string -> Lookup)
    requires APIKeyValidation(k1, isUuid, s1).written != []
    requires APIKeyValidation(k2, isUuid, s2).written != []
    ensures APIKeyValidation(k1, isUuid, s1).written == APIKeyValidation(k2, isUuid, s2).written == [Denied]
  {
  }

  /** The key search backed by the user table; any store error other than a missing row is a failed search. */
  function StoreSearch(t: UserTable): string -> Lookup {
    key =>
      match SearchApiKey(t, key).result
      case Ok(u) => Found(u)
      case Err(NotFound) => NoUser
      case Err(_) => LookupFailed
  }

  /** With the user table behind it, the gate admits exactly the holders of a well-formed key. */
  lemma GateAdmitsExactlyKeyHolders(key: string, isUuid: string -> bool, t: UserTable)
    requires ValidUsers(t) && SearchKeyOp !in t.failing
    ensures var g := APIKeyValidation(key, isUuid, StoreSearch(t));
      |g.next| == 1 <==> key != "" && isUuid(key) && exists id | id in t.rows :: t.rows[id].apiKey == key
    ensures var g := APIKeyValidation(key, isUuid, StoreSearch(t));
      forall id | id in t.rows && t.rows[id].apiKey == key && key != "" && isUuid(key) :: g.next == [t.rows[id]]
  {
    SearchFindsTheKeyHolder(t, key);
    if key != "" && isUuid(key) {
      var a := SearchApiKey(t, key);
      assert StoreSearch(t)(key).Found? <==> a.result.Ok?;
      assert a.result.Ok? ==> StoreSearch(t)(key).user == a.result.value;
    }
  }

  // ---------------------------------------------------------------------------
  // Status recorder

  /** The wrapper's remembered status and the codes forwarded to the wrapped writer. */
  datatype Recorder = Recorder(status: int, forwarded: seq<int>)

  /**
   * The wrapper's status agrees with what reached the wrapped writer: the
   * last code forwarded, or Go's zero int before any.
   */
  predicate ReportsLastWrite(rw: Recorder) {
    rw.status == if rw.forwarded == [] then 0 else rw.forwarded[|rw.forwarded| - 1]
  }

  /** A fresh wrapper has seen no write. */
  function Wrap(): (rw: Recorder)
    ensures ReportsLastWrite(rw) && rw.forwarded == []
  {
    Recorder(0, [])
  }

  /** Remembers the code and passes it on, keeping the two in agreement. */
  function WriteHeader(rw: Recorder, code: int): (r: Recorder)
    ensures ReportsLastWrite(r) && Status(r) == code
    ensures r.forwarded == rw.forwarded + [code]
  {
    Recorder(code, rw.forwarded + [code])
  }

  /** The recorded status: on a wrapper built by `Wrap` and `WriteHeader`, the last code written. */
  function Status(rw: Recorder): (s: int)
    ensures ReportsLastWrite(rw) ==> s == if rw.forwarded == [] then 0 else rw.forwarded[|rw.forwarded| - 1]
  {
    rw.status
  }

  /** A fresh wrapper after the given sequence of `WriteHeader` calls. */
  function Replay(codes: seq<int>): Recorder {
    if codes == [] then Wrap() else WriteHeader(Replay(codes[..|codes| - 1]), codes[|codes| - 1])
  }

  /**
   * `Status` reports the most recent code written, or 0 before any write, and
   * every code reaches the wrapped writer in order.
   */
  lemma {:induction false} StatusIsLastCode(codes: seq<int>)
    ensures Status(Replay(codes)) == (if codes == [] then 0 else codes[|codes| - 1])
    ensures Replay(codes).forwarded == codes
  {
    if codes != [] {
      StatusIsLastCode(codes[..|codes| - 1]);
      assert codes[..|codes| - 1] + [codes[|codes| - 1]] == codes;
    }
  }
}
