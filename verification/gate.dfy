/**
 The authentication gate (`auth_checker`): a request is let through exactly
 when the value of its `Authorization` header is a key of the credential map.
 */
module Gate {
  import opened Types

  const Unauthorized: int := 401
  const NotFoundMessage: string := "Api token not found."

  datatype AuthResult = Authorized(key: string) | Rejected(status: int, message: string)

  /** Decides one request presenting `presented`. The map is only read; the
      stored secret is never looked at, and a poisoned lock is answered like an
      unknown key. */
  function AuthChecker(lock: LockState, cache: Cache, presented: string): (r: AuthResult)
    ensures r.Authorized? <==> lock == Healthy && presented in cache
    ensures r.Authorized? ==> r.key == presented
    ensures r.Rejected? ==> r.status == Unauthorized && r.message == NotFoundMessage
  {
    if lock == Healthy && presented in cache then Authorized(presented)
    else Rejected(Unauthorized, NotFoundMessage)
  }

  /** Two maps with the same keys give the same answer to every request,
      whatever secrets they store. */
  lemma AuthIgnoresSecrets(lock: LockState, c1: Cache, c2: Cache, presented: string)
    requires c1.Keys == c2.Keys
    ensures AuthChecker(lock, c1, presented) == AuthChecker(lock, c2, presented)
  {
  }

  /** An unknown key and a poisoned lock produce the same rejection, so a
      client cannot tell them apart. */
  lemma UnknownKeyLooksLikeLockFailure(c1: Cache, k1: string, c2: Cache, k2: string)
    requires k1 !in c1
    ensures AuthChecker(Healthy, c1, k1) == AuthChecker(Poisoned, c2, k2)
    ensures AuthChecker(Healthy, c1, k1) == Rejected(401, "Api token not found.")
  {
  }

  /** An empty header value gets no special treatment: it is looked up like
      any other key. */
  lemma EmptyKeyIsLookedUp(cache: Cache)
    ensures AuthChecker(Healthy, cache, "").Authorized? <==> "" in cache
  {
  }
}
