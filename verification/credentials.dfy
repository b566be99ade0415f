/**
 Loading the credential map from the fetched `api_tokens` rows
 (`refresh_kv_apikeys`). Every row's key and secret are decoded as UTF-8 and
 inserted into the map under its lock, in row order; the map is never cleared,
 so the load is an insert-only merge into whatever the map already holds.
 */
module Credentials {
  import opened Types
  import Config

  /** Why a load stopped, and at which row (0-based, in fetch order). */
  datatype LoadError =
    | KeyNotUtf8(index: nat)
    | SecretNotUtf8(index: nat)
    | LockPoisoned(index: nat)

  /** The state of the map after the loop: it either ran to the end, or it
      stopped at a row and left the map as the earlier rows made it. */
  datatype Fold = Done(cache: Cache) | Stopped(error: LoadError, partial: Cache)

  /** One iteration of the loop for row `t` at position `index`: decode the key,
      decode the secret, take the lock, insert. */
  function Step(c: Cache, t: Token, index: nat, decode: Decoder, lock: LockState): Fold
  {
    match decode(t.keyVal)
    case None => Stopped(KeyNotUtf8(index), c)
    case Some(key) =>
      match decode(t.secretVal)
      case None => Stopped(SecretNotUtf8(index), c)
      case Some(secret) =>
        if lock == Poisoned then Stopped(LockPoisoned(index), c)
        else Done(c[key := secret])
  }

  /** The loop over all rows, starting from the map `m`: the rows before the
      last are processed first, then the last one. */
  function Load(m: Cache, records: seq<Token>, decode: Decoder, lock: LockState): Fold
    decreases |records|
  {
    if |records| == 0 then Done(m)
    else
      var n := |records| - 1;
      match Load(m, records[..n], decode, lock)
      case Stopped(e, p) => Stopped(e, p)
      case Done(c) => Step(c, records[n], n, decode, lock)
  }

  // Reference definitions, stated over the rows and not over the loop.

  /** Both byte strings of `t` are valid UTF-8. */
  predicate Decodes(t: Token, decode: Decoder)
  {
    decode(t.keyVal).Some? && decode(t.secretVal).Some?
  }

  predicate AllDecode(records: seq<Token>, decode: Decoder)
  {
    forall i :: 0 <= i < |records| ==> Decodes(records[i], decode)
  }

  /** Row `t` carries the public key `k`. */
  predicate HasKey(t: Token, decode: Decoder, k: string)
  {
    decode(t.keyVal) == Some(k)
  }

  /** Some row carries the public key `k`. */
  predicate Mentions(records: seq<Token>, decode: Decoder, k: string)
  {
    exists i :: 0 <= i < |records| && HasKey(records[i], decode, k)
  }

  /** Row `i` is the last row that carries `k`. */
  predicate LastWithKey(records: seq<Token>, decode: Decoder, i: int, k: string)
  {
    && 0 <= i < |records|
    && HasKey(records[i], decode, k)
    && forall j :: i < j < |records| ==> !HasKey(records[j], decode, k)
  }

  /** The secret that row `t` decodes to. */
  function SecretOf(t: Token, decode: Decoder): string
    requires decode(t.secretVal).Some?
  {
    decode(t.secretVal).value
  }

  /** The load succeeds exactly when every row decodes and the lock can be
      taken; with no rows the lock is never requested. */
  lemma {:induction false} LoadSucceedsIff(m: Cache, records: seq<Token>, decode: Decoder, lock: LockState)
    ensures Load(m, records, decode, lock).Done? <==>
            AllDecode(records, decode) && (|records| == 0 || lock == Healthy)
    decreases |records|
  {
    if |records| > 0 {
      var n := |records| - 1;
      LoadSucceedsIff(m, records[..n], decode, lock);
      if AllDecode(records, decode) {
        assert AllDecode(records[..n], decode) by {
          forall i | 0 <= i < n ensures Decodes(records[..n][i], decode) {
            assert records[..n][i] == records[i];
          }
        }
      } else {
        var i :| 0 <= i < |records| && !Decodes(records[i], decode);
        if i < n {
          assert !Decodes(records[..n][i], decode);
        }
      }
    }
  }

  /** After a successful load, a key is present exactly when it was present
      before or some row carries it. */
  lemma {:induction false} LoadKeys(m: Cache, records: seq<Token>, decode: Decoder, lock: LockState, c: Cache)
    requires Load(m, records, decode, lock) == Done(c)
    ensures forall k :: k in c <==> k in m || Mentions(records, decode, k)
    decreases |records|
  {
    if |records| > 0 {
      var n := |records| - 1;
      var pre := records[..n];
      var c0 := Load(m, pre, decode, lock).cache;
      LoadKeys(m, pre, decode, lock, c0);
      var key := decode(records[n].keyVal).value;
      assert c == c0[key := SecretOf(records[n], decode)];
      forall k
        ensures k in c <==> k in m || Mentions(records, decode, k)
      {
        if Mentions(pre, decode, k) {
          var i :| 0 <= i < n && HasKey(pre[i], decode, k);
          assert pre[i] == records[i];
        }
        if Mentions(records, decode, k) && k != key {
          var i :| 0 <= i < |records| && HasKey(records[i], decode, k);
          assert i < n && pre[i] == records[i];
          assert Mentions(pre, decode, k);
        }
        assert HasKey(records[n], decode, key);
      }
    }
  }

  /** After a successful load, the secret stored under a key is the one of the
      last row that carries it. */
  lemma {:induction false} LoadLastWins(m: Cache, records: seq<Token>, decode: Decoder, lock: LockState, c: Cache, i: int, k: string)
    requires Load(m, records, decode, lock) == Done(c)
    requires LastWithKey(records, decode, i, k)
    ensures k in c && decode(records[i].secretVal) == Some(c[k])
    decreases |records|
  {
    LoadSucceedsIff(m, records, decode, lock);
    var n := |records| - 1;
    var pre := records[..n];
    var c0 := Load(m, pre, decode, lock).cache;
    var key := decode(records[n].keyVal).value;
    assert c == c0[key := SecretOf(records[n], decode)];
    if i < n {
      assert key != k by { assert !HasKey(records[n], decode, k); }
      assert pre[i] == records[i];
      assert LastWithKey(pre, decode, i, k) by {
        forall j | i < j < n ensures !HasKey(pre[j], decode, k) {
          assert pre[j] == records[j];
        }
      }
      LoadLastWins(m, pre, decode, lock, c0, i, k);
    }
  }

  /** A successful load leaves every key that no row carries untouched: it
      only inserts or overwrites. */
  lemma {:induction false} LoadKeepsUntouched(m: Cache, records: seq<Token>, decode: Decoder, lock: LockState, c: Cache, k: string)
    requires Load(m, records, decode, lock) == Done(c)
    requires k in m && !Mentions(records, decode, k)
    ensures k in c && c[k] == m[k]
    decreases |records|
  {
    if |records| > 0 {
      var n := |records| - 1;
      var pre := records[..n];
      var c0 := Load(m, pre, decode, lock).cache;
      forall i | 0 <= i < n ensures !HasKey(pre[i], decode, k) {
        assert pre[i] == records[i];
      }
      LoadKeepsUntouched(m, pre, decode, lock, c0, k);
      assert !HasKey(records[n], decode, k);
    }
  }

  /** A failed load names the first row that fails, says why it failed, and
      leaves the map exactly as the rows before it made it. */
  lemma {:induction false} LoadStopsAtFirstFailure(m: Cache, records: seq<Token>, decode: Decoder, lock: LockState, e: LoadError, p: Cache)
    requires Load(m, records, decode, lock) == Stopped(e, p)
    ensures e.index < |records|
    ensures Load(m, records[..e.index], decode, lock) == Done(p)
    ensures AllDecode(records[..e.index], decode)
    ensures e.KeyNotUtf8? ==> decode(records[e.index].keyVal).None?
    ensures e.SecretNotUtf8? ==>
              decode(records[e.index].keyVal).Some? && decode(records[e.index].secretVal).None?
    ensures e.LockPoisoned? ==> Decodes(records[e.index], decode) && lock == Poisoned
    decreases |records|
  {
    var n := |records| - 1;
    var pre := records[..n];
    match Load(m, pre, decode, lock)
    case Stopped(_, _) =>
      LoadStopsAtFirstFailure(m, pre, decode, lock, e, p);
      assert pre[..e.index] == records[..e.index];
      assert pre[e.index] == records[e.index];
    case Done(c0) =>
      assert pre == records[..n];
      LoadSucceedsIff(m, pre, decode, lock);
  }

  /** Once a prefix of the rows has stopped the loop, the remaining rows change
      nothing. */
  lemma {:induction false} StoppedPrefixStopsLoad(m: Cache, records: seq<Token>, j: nat, decode: Decoder, lock: LockState)
    requires j <= |records|
    requires Load(m, records[..j], decode, lock).Stopped?
    ensures Load(m, records, decode, lock) == Load(m, records[..j], decode, lock)
    decreases |records|
  {
    if j < |records| {
      var n := |records| - 1;
      assert records[..n][..j] == records[..j];
      StoppedPrefixStopsLoad(m, records[..n], j, decode, lock);
    } else {
      assert records[..j] == records;
    }
  }

  /** With a poisoned lock the first row ends the loop: it panics on bad bytes
      or fails to take the lock, and nothing is ever inserted. */
  lemma {:induction false} PoisonedLoadStopsAtFirstRow(m: Cache, records: seq<Token>, decode: Decoder, lock: LockState)
    ensures lock == Poisoned && |records| > 0 ==>
              && Load(m, records, decode, lock) == Step(m, records[0], 0, decode, lock)
              && Load(m, records, decode, lock).Stopped?
              && Load(m, records, decode, lock).error.index == 0
              && Load(m, records, decode, lock).partial == m
  {
    if lock == Poisoned && |records| > 0 {
      assert records[..1][..0] == [];
      assert records[..1][0] == records[0];
      StoppedPrefixStopsLoad(m, records, 1, decode, lock);
    }
  }

  /** The loop of `refresh_kv_apikeys` over the fetched rows, updating the map
      in place: after `i` rows the map is what `Load` gives for those rows. */
  method RefreshLoop(m: Cache, records: seq<Token>, decode: Decoder, lock: LockState) returns (r: Fold)
    ensures r == Load(m, records, decode, lock)
    ensures r.Done? <==> AllDecode(records, decode) && (|records| == 0 || lock == Healthy)
  {
    LoadSucceedsIff(m, records, decode, lock);
    var map' := m;
    var i := 0;
    while i < |records|
      invariant 0 <= i <= |records|
      invariant Load(m, records[..i], decode, lock) == Done(map')
    {
      assert records[..i + 1][..i] == records[..i];
      var t := records[i];
      var keyval := decode(t.keyVal);
      if keyval.None? {
        StoppedPrefixStopsLoad(m, records, i + 1, decode, lock);
        return Stopped(KeyNotUtf8(i), map');
      }
      var secretval := decode(t.secretVal);
      if secretval.None? {
        StoppedPrefixStopsLoad(m, records, i + 1, decode, lock);
        return Stopped(SecretNotUtf8(i), map');
      }
      if lock == Poisoned {
        StoppedPrefixStopsLoad(m, records, i + 1, decode, lock);
        return Stopped(LockPoisoned(i), map');
      }
      map' := map'[keyval.value := secretval.value];
      i := i + 1;
    }
    assert records[..i] == records;
    r := Done(map');
  }

  /** The loop reached row `i`: every earlier row decoded and was inserted,
      leaving the map `p`. */
  predicate ReachedRow(m: Cache, records: seq<Token>, decode: Decoder, lock: LockState, i: nat, p: Cache)
  {
    && i < |records|
    && AllDecode(records[..i], decode)
    && Load(m, records[..i], decode, lock) == Done(p)
  }

  /** What `unwrap` panicked on. */
  datatype Unwrap = FetchRows | KeyBytes(index: nat) | SecretBytes(index: nat)

  /** How `refresh_kv_apikeys` ends, with the credential map as it is left. */
  datatype RefreshOutcome =
    | Refreshed(cache: Cache)                  // Ok(true)
    | LockFailed(index: nat, cache: Cache)     // Err(..) from a poisoned lock
    | Panicked(cause: Unwrap, cache: Cache)    // a failed unwrap
    | Exited(code: int)                        // process exit on connect failure

  /** `refresh_kv_apikeys`: connect with the configured URL (`reachable` says
      whether the connection succeeds), fetch all rows (`None` when the query
      fails), then run the loop on the map `m`. */
  function RefreshKvApiKeys(m: Cache, config: AppConfig, reachable: string -> bool,
                            fetched: Option<seq<Token>>, decode: Decoder, lock: LockState): (r: RefreshOutcome)
    ensures !reachable(Config.ConnectionUrl(config)) <==> r == Exited(1)
    ensures r.Exited? ==> r.code == 1
    ensures r.Panicked? && r.cause == FetchRows <==>
              reachable(Config.ConnectionUrl(config)) && fetched.None?
    ensures r.Refreshed? <==>
              && reachable(Config.ConnectionUrl(config))
              && fetched.Some?
              && AllDecode(fetched.value, decode)
              && (|fetched.value| == 0 || lock == Healthy)
    ensures r.Refreshed? ==> Load(m, fetched.value, decode, lock) == Done(r.cache)
    ensures r.LockFailed? <==>
              && reachable(Config.ConnectionUrl(config))
              && fetched.Some?
              && |fetched.value| > 0
              && Decodes(fetched.value[0], decode)
              && lock == Poisoned
    ensures r.LockFailed? ==> r.index == 0 && r.cache == m
    ensures r.Panicked? && r.cause == FetchRows ==> r.cache == m
    ensures r.Panicked? && r.cause.KeyBytes? ==>
              && fetched.Some?
              && ReachedRow(m, fetched.value, decode, lock, r.cause.index, r.cache)
              && decode(fetched.value[r.cause.index].keyVal).None?
    ensures r.Panicked? && r.cause.SecretBytes? ==>
              && fetched.Some?
              && ReachedRow(m, fetched.value, decode, lock, r.cause.index, r.cache)
              && decode(fetched.value[r.cause.index].keyVal).Some?
              && decode(fetched.value[r.cause.index].secretVal).None?
    ensures reachable(Config.ConnectionUrl(config)) && fetched == Some([]) ==> r == Refreshed(m)
  {
    if !reachable(Config.ConnectionUrl(config)) then Exited(1)
    else
      match fetched
      case None => Panicked(FetchRows, m)
      case Some(records) =>
        LoadSucceedsIff(m, records, decode, lock);
        PoisonedLoadStopsAtFirstRow(m, records, decode, lock);
        match Load(m, records, decode, lock)
        case Done(c) => Refreshed(c)
        case Stopped(e, p) =>
          LoadStopsAtFirstFailure(m, records, decode, lock, e, p);
          match e
          case KeyNotUtf8(i) => Panicked(KeyBytes(i), p)
          case SecretNotUtf8(i) => Panicked(SecretBytes(i), p)
          case LockPoisoned(i) => LockFailed(i, p)
  }
}
