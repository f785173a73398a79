/**
 Defaults resolution: the storage backend, the context name, each release's
 name, and the inheritance of global hooks and history limits.
 */
module Defaults {
  import opened Types

  const DefaultStorageBackend := "secret"
  /** The context name used when a document names none. */
  const DefaultContextName := "default"
  /** The environment variable through which the storage backend is published. */
  const HelmDriverVar := "HELM_DRIVER"

  /** The backend after defaulting: an empty one becomes "secret". */
  function DefaultedBackend(backend: string): (r: string)
    ensures r != ""
    ensures backend != "" ==> r == backend
    ensures backend == "" ==> r == DefaultStorageBackend
  {
    if backend != "" then backend else DefaultStorageBackend
  }

  /** The context name after defaulting. */
  function DefaultedContext(context: string): (r: string)
    ensures r != ""
    ensures context != "" ==> r == context
    ensures context == "" ==> r == DefaultContextName
  {
    if context == "" then DefaultContextName else context
  }

  /** The environment after defaulting: a backend set by the user is published, a missing one is not. */
  function PublishedEnv(env: map<string, string>, backend: string): (r: map<string, string>)
    ensures backend != "" ==> HelmDriverVar in r && r[HelmDriverVar] == backend
    ensures forall k | k in env && k != HelmDriverVar :: k in r && r[k] == env[k]
    ensures backend == "" ==> r == env
    ensures r.Keys == env.Keys + (if backend != "" then {HelmDriverVar} else {})
  {
    if backend != "" then env[HelmDriverVar := backend] else env
  }

  /** A release without its own hooks takes the global ones. */
  function InheritHooks(r: Release, c: Config): (r': Release)
    ensures |r.Hooks| != 0 ==> r' == r
    ensures |r.Hooks| == 0 ==> r' == r.(Hooks := c.GlobalHooks)
  {
    if |r.Hooks| == 0 then r.(Hooks := c.GlobalHooks) else r
  }

  /** A release without its own history limit takes the global one. */
  function InheritMaxHistory(r: Release, c: Config): (r': Release)
    ensures r.MaxHistory != 0 ==> r' == r
    ensures r.MaxHistory == 0 ==> r' == r.(MaxHistory := c.GlobalMaxHistory)
  {
    if r.MaxHistory == 0 then r.(MaxHistory := c.GlobalMaxHistory) else r
  }

  /**
   One release after defaulting under document key `key`: an empty name
   becomes the key, and hooks and history limit are inherited only where
   the release sets none. Everything else is left as it was.
   */
  function ResolveRelease(key: string, r: Release, c: Config): (r': Release)
    ensures r'.Name == (if r.Name == "" then key else r.Name)
    ensures r'.Hooks == (if |r.Hooks| == 0 then c.GlobalHooks else r.Hooks)
    ensures r'.MaxHistory == (if r.MaxHistory == 0 then c.GlobalMaxHistory else r.MaxHistory)
    ensures r'.Namespace == r.Namespace && r'.Group == r.Group && r'.Enabled == r.Enabled
    ensures r'.Chart == r.Chart && r'.Version == r.Version
  {
    var named := if r.Name == "" then r.(Name := key) else r;
    InheritMaxHistory(InheritHooks(named, c), c)
  }

  /** All releases after defaulting; the set of keys is unchanged. */
  function ResolveApps(apps: map<string, Release>, c: Config): (r: map<string, Release>)
    ensures r.Keys == apps.Keys
    ensures forall k | k in apps && apps[k].Name != "" :: r[k].Name == apps[k].Name
    ensures forall k | k in apps && apps[k].Name == "" :: r[k].Name == k
  {
    map k | k in apps :: ResolveRelease(k, apps[k], c)
  }

  /** A map that agrees with ResolveApps on every key is ResolveApps. */
  lemma ResolveAppsPointwise(apps: map<string, Release>, resolved: map<string, Release>, c: Config)
    requires resolved.Keys == apps.Keys
    requires forall k | k in apps :: resolved[k] == ResolveRelease(k, apps[k], c)
    ensures resolved == ResolveApps(apps, c)
  {
  }

  /**
   Resolving a release a second time changes nothing, whatever the global
   settings at the second run, as long as the global hooks and history
   limit are those of the first (which the resolver itself never changes).
   */
  lemma ResolveReleaseIdempotent(key: string, r: Release, c: Config, c': Config)
    requires c'.GlobalHooks == c.GlobalHooks && c'.GlobalMaxHistory == c.GlobalMaxHistory
    ensures ResolveRelease(key, ResolveRelease(key, r, c), c') == ResolveRelease(key, r, c)
  {
    var r1 := ResolveRelease(key, r, c);
    var r2 := ResolveRelease(key, r1, c');
    if r.Name == "" && key == "" {
      assert r1.Name == "";
    }
    if |r.Hooks| == 0 && |c.GlobalHooks| == 0 {
      assert |r1.Hooks| == 0;
    }
    if r.MaxHistory == 0 && c.GlobalMaxHistory == 0 {
      assert r1.MaxHistory == 0;
    }
    assert r2.Name == r1.Name && r2.Hooks == r1.Hooks && r2.MaxHistory == r1.MaxHistory;
  }

  /**
   The whole defaults pass is idempotent on the document: running it again
   on its own output leaves backend, context and every release as they are.
   */
  lemma DefaultsIdempotent(c: Config, context: string, apps: map<string, Release>)
    ensures var c1 := c.(StorageBackend := DefaultedBackend(c.StorageBackend));
            && DefaultedBackend(c1.StorageBackend) == c1.StorageBackend
            && DefaultedContext(DefaultedContext(context)) == DefaultedContext(context)
            && ResolveApps(ResolveApps(apps, c1), c1.(StorageBackend := DefaultedBackend(c1.StorageBackend))) == ResolveApps(apps, c1)
  {
    var c1 := c.(StorageBackend := DefaultedBackend(c.StorageBackend));
    var c2 := c1.(StorageBackend := DefaultedBackend(c1.StorageBackend));
    var once := ResolveApps(apps, c1);
    var twice := ResolveApps(once, c2);
    forall k | k in apps
      ensures twice[k] == once[k]
    {
      ResolveReleaseIdempotent(k, apps[k], c1, c2);
    }
  }

  /**
   The environment is the one thing a second run can change: a document
   whose backend was empty publishes nothing on the first run, but on the
   second run its defaulted backend "secret" is published.
   */
  lemma SecondRunPublishesDefaultBackend(env: map<string, string>)
    ensures PublishedEnv(env, "") == env
    ensures PublishedEnv(PublishedEnv(env, ""), DefaultedBackend("")) == env[HelmDriverVar := DefaultStorageBackend]
  {
  }
}
