/**
 Process startup (`main` up to serving): read the configuration, then load the
 credential map into the fresh, empty, unpoisoned global map. The service only
 starts serving when both succeed.
 */
module Startup {
  import opened Types
  import Config
  import Credentials
  import Gate

  datatype StartupOutcome =
    | Serving(config: AppConfig, cache: Cache)
    | Exited(code: int)
    | Panicked(cause: Credentials.Unwrap)

  /** `main`: a configuration error exits with its code, a refresh error exits
      with 1, a failed `unwrap` panics; otherwise the service serves with the
      loaded map. */
  function Start(env: Config.Env, reachable: string -> bool,
                 fetched: Option<seq<Token>>, decode: Decoder): (r: StartupOutcome)
    ensures r.Exited? ==> 1 <= r.code <= 5
    ensures r.Serving? <==>
              && Config.LoadAppConfig(env).Configured?
              && reachable(Config.ConnectionUrl(Config.LoadAppConfig(env).config))
              && fetched.Some?
              && Credentials.AllDecode(fetched.value, decode)
    ensures r.Serving? ==> r.config == Config.LoadAppConfig(env).config
    ensures Config.LoadAppConfig(env).Exit? ==> r == Exited(Config.LoadAppConfig(env).code)
    ensures r.Panicked? <==>
              && Config.LoadAppConfig(env).Configured?
              && reachable(Config.ConnectionUrl(Config.LoadAppConfig(env).config))
              && (fetched.None? || !Credentials.AllDecode(fetched.value, decode))
    ensures r == Exited(1) ==>
              || Config.HostVar !in env
              || (&& Config.LoadAppConfig(env).Configured?
                  && !reachable(Config.ConnectionUrl(Config.LoadAppConfig(env).config)))
  {
    match Config.LoadAppConfig(env)
    case Exit(code) => Exited(code)
    case Configured(cfg) =>
      match Credentials.RefreshKvApiKeys(map[], cfg, reachable, fetched, decode, Healthy)
      case Refreshed(c) => Serving(cfg, c)
      case LockFailed(_, _) => Exited(1)
      case Panicked(cause, _) => Panicked(cause)
      case Exited(code) => Exited(code)
  }

  /** Once serving, the map holds exactly the keys of the fetched rows, each
      with the secret of the last row that carries it. */
  lemma ServedCacheIsFetchedRows(env: Config.Env, reachable: string -> bool,
                                 fetched: Option<seq<Token>>, decode: Decoder, cfg: AppConfig, c: Cache)
    requires Start(env, reachable, fetched, decode) == Serving(cfg, c)
    ensures fetched.Some?
    ensures forall k :: k in c <==> Credentials.Mentions(fetched.value, decode, k)
    ensures forall i, k :: Credentials.LastWithKey(fetched.value, decode, i, k) ==>
              k in c && decode(fetched.value[i].secretVal) == Some(c[k])
  {
    var records := fetched.value;
    assert Credentials.Load(map[], records, decode, Healthy) == Credentials.Done(c);
    Credentials.LoadKeys(map[], records, decode, Healthy, c);
    forall i, k | Credentials.LastWithKey(records, decode, i, k)
      ensures k in c && decode(records[i].secretVal) == Some(c[k])
    {
      Credentials.LoadLastWins(map[], records, decode, Healthy, c, i, k);
    }
  }

  /** Once serving, the gate accepts a presented key exactly when some fetched
      row carries it. */
  lemma ServedGateAcceptsFetchedKeys(env: Config.Env, reachable: string -> bool,
                                     fetched: Option<seq<Token>>, decode: Decoder, cfg: AppConfig, c: Cache,
                                     presented: string)
    requires Start(env, reachable, fetched, decode) == Serving(cfg, c)
    ensures fetched.Some?
    ensures Gate.AuthChecker(Healthy, c, presented).Authorized? <==>
            Credentials.Mentions(fetched.value, decode, presented)
  {
    ServedCacheIsFetchedRows(env, reachable, fetched, decode, cfg, c);
  }

  /** A store with no rows is not a load failure: the service starts with an
      empty map and rejects every request. */
  lemma EmptyStoreServesEmptyCache(env: Config.Env, reachable: string -> bool, decode: Decoder, presented: string)
    requires Config.LoadAppConfig(env).Configured?
    requires reachable(Config.ConnectionUrl(Config.LoadAppConfig(env).config))
    ensures Start(env, reachable, Some([]), decode) == Serving(Config.LoadAppConfig(env).config, map[])
    ensures Gate.AuthChecker(Healthy, map[], presented).Rejected?
  {
  }

  /** An unreachable store stops the process with exit code 1 before anything
      is served. */
  lemma UnreachableStoreExits(env: Config.Env, reachable: string -> bool,
                              fetched: Option<seq<Token>>, decode: Decoder)
    requires Config.LoadAppConfig(env).Configured?
    requires !reachable(Config.ConnectionUrl(Config.LoadAppConfig(env).config))
    ensures Start(env, reachable, fetched, decode) == Exited(1)
  {
  }
}
