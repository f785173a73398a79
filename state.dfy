/**
 The desired-state document and the passes run over it in place: defaults
 resolution, the fail-fast validation pipeline, the fail-slow chart
 validation, target selection and cascading disablement.
 */
module App {
  import opened Types
  import opened Checks
  import opened Defaults
  import opened Charts
  import opened Targets

  class State {
    var Certificates: map<string, string>
    var Settings: Config
    var Context: string
    var Namespaces: map<string, Namespace>
    var HelmRepos: map<string, string>
    /**
     False when the document has no `apps` stanza at all. The source's map is
     then nil and holds no releases; no invariant ties this to `Apps` because
     `Validate` returns before reading `Apps` in that case, and the other
     passes behave the same on an empty map as on a nil one.
     */
    var AppsDeclared: bool
    var Apps: map<string, Release>
    var TargetMap: map<string, bool>
    /** The process environment the storage backend is published to. */
    var Env: map<string, string>

    /** Everything the fail-fast checks before the per-release validator admit. */
    ghost predicate Admissible(host: Host)
      reads this
    {
      && SettingsCheck(Settings, host).None?
      && CertificatesAdmissible(Certificates, Settings, host)
      && EyamlCheck(Settings).None?
      && NamespacesCheck(Namespaces, host).None?
      && (forall k | k in HelmRepos :: host.ParsesRequestURI(HelmRepos[k]))
    }

    /**
     Fills in the storage backend (publishing a user-set one to the
     environment), the context name, and every release's name, hooks and
     history limit.
     */
    method SetDefaults()
      modifies this`Settings, this`Context, this`Apps, this`Env
      ensures Settings == old(Settings).(StorageBackend := DefaultedBackend(old(Settings).StorageBackend))
      ensures Env == PublishedEnv(old(Env), old(Settings).StorageBackend)
      ensures Context == DefaultedContext(old(Context))
      ensures Apps == ResolveApps(old(Apps), Settings)
    {
      if Settings.StorageBackend != "" {
        Env := Env[HelmDriverVar := Settings.StorageBackend];
      } else {
        Settings := Settings.(StorageBackend := DefaultStorageBackend);
      }
      if Context == "" {
        Context := DefaultContextName;
      }
      var settings := Settings;
      var apps := Apps;
      var pending := apps.Keys;
      while pending != {}
        modifies {}
        invariant pending <= Apps.Keys && apps.Keys == Apps.Keys
        invariant forall k | k in Apps && k !in pending :: apps[k] == ResolveRelease(k, Apps[k], settings)
        invariant forall k | k in pending :: apps[k] == Apps[k]
        decreases pending
      {
        var name :| name in pending;
        // default the name to the key, then inherit hooks and history limit
        apps := apps[name := ResolveRelease(name, apps[name], settings)];
        pending := pending - {name};
      }
      ResolveAppsPointwise(Apps, apps, settings);
      Apps := apps;
    }

    /**
     Checks every certificate location, rewriting each entry with the value
     IsValidCert returns, then the coverage rules. The first refused entry
     stops the loop; which one is reported depends on iteration order.
     */
    method ValidateCertificates(host: Host) returns (err: Option<Error>)
      modifies this`Certificates
      ensures Certificates == old(Certificates)
      ensures err.None? <==> CertificatesAdmissible(Certificates, Settings, host)
      ensures (exists k | k in Certificates :: !IsValidCert(Certificates[k], host).0) ==>
                err.Some? && err.value.CertificateInvalid? && err.value.key in Certificates
                && !IsValidCert(Certificates[err.value.key], host).0
      ensures (forall k | k in Certificates :: IsValidCert(Certificates[k], host).0) ==>
                err == CertificateCoverage(Certificates, Settings)
    {
      if |Certificates| != 0 {
        var pending := Certificates.Keys;
        while pending != {}
          invariant pending <= Certificates.Keys
          invariant Certificates == old(Certificates)
          invariant forall k | k in Certificates && k !in pending :: IsValidCert(Certificates[k], host).0
          decreases pending
        {
          var key :| key in pending;
          var (r, path) := IsValidCert(Certificates[key], host);
          if !r {
            return Some(CertificateInvalid(key));
          }
          Certificates := Certificates[key := path];
          pending := pending - {key};
        }
      }
      err := CertificateCoverage(Certificates, Settings);
    }

    /** Every chart repository must have a URL that parses; some refused one is reported. */
    method ValidateRepos(host: Host) returns (err: Option<Error>)
      ensures err.None? <==> forall k | k in HelmRepos :: host.ParsesRequestURI(HelmRepos[k])
      ensures err.Some? ==> err.value.RepoInvalid? && err.value.repo in HelmRepos
                            && !host.ParsesRequestURI(HelmRepos[err.value.repo])
    {
      var pending := HelmRepos.Keys;
      while pending != {}
        invariant pending <= HelmRepos.Keys
        invariant forall k | k in HelmRepos && k !in pending :: host.ParsesRequestURI(HelmRepos[k])
        decreases pending
      {
        var k :| k in pending;
        if !host.ParsesRequestURI(HelmRepos[k]) {
          return Some(RepoInvalid(k));
        }
        pending := pending - {k};
      }
      return None;
    }

    /**
     Runs the per-release validator over every release, in some order,
     sharing one duplicate tracker; `order` is the order taken, up to and
     including a refused release.
     */
    method ValidateApps(host: Host) returns (err: Option<Error>, ghost order: seq<string>)
      ensures Distinct(order) && forall k | k in order :: k in Apps
      ensures err == ThreadReleases(host, Apps, order, map[]).1
      ensures err.None? ==> forall k | k in Apps :: k in order
      ensures err.Some? ==> err.value.AppInvalid? && err.value.appLabel in Apps
    {
      var names: Names := map[];
      var pending := Apps.Keys;
      order := [];
      while pending != {}
        invariant pending <= Apps.Keys
        invariant Distinct(order)
        invariant forall k | k in order :: k in Apps && k !in pending
        invariant forall k | k in Apps && k !in pending :: k in order
        invariant ThreadReleases(host, Apps, order, map[]) == (names, None)
        decreases pending
      {
        var appLabel :| appLabel in pending;
        var v := host.ValidateRelease(appLabel, Apps[appLabel], names);
        ThreadReleasesSnoc(host, Apps, order, appLabel, map[]);
        order := order + [appLabel];
        if v.error.Some? {
          return Some(AppInvalid(appLabel, v.error.value)), order;
        }
        names := v.names;
        pending := pending - {appLabel};
      }
      return None, order;
    }

    /**
     The fail-fast validation pipeline: a missing apps stanza ends the run
     with nothing to do; otherwise the checks run in a fixed order and the
     first one that refuses decides the outcome.
     */
    method Validate(host: Host) returns (outcome: Outcome, ghost order: seq<string>)
      modifies this`Certificates
      ensures Certificates == old(Certificates)
      ensures outcome == NothingToDo <==> !AppsDeclared
      ensures Distinct(order) && forall k | k in order :: k in Apps
      ensures outcome == Passed <==>
                && AppsDeclared && Admissible(host)
                && (forall k | k in Apps :: k in order)
                && ThreadReleases(host, Apps, order, map[]).1.None?
      // settings, hooks and webhook come first
      ensures AppsDeclared && SettingsCheck(Settings, host).Some? ==>
                outcome == Failed(SettingsCheck(Settings, host).value)
      // then the certificate locations, then their coverage
      ensures AppsDeclared && SettingsCheck(Settings, host).None?
              && (exists k | k in Certificates :: !IsValidCert(Certificates[k], host).0) ==>
                outcome.Failed? && outcome.error.CertificateInvalid? && outcome.error.key in Certificates
                && !IsValidCert(Certificates[outcome.error.key], host).0
      ensures AppsDeclared && SettingsCheck(Settings, host).None?
              && (forall k | k in Certificates :: IsValidCert(Certificates[k], host).0)
              && CertificateCoverage(Certificates, Settings).Some? ==>
                outcome == Failed(CertificateCoverage(Certificates, Settings).value)
      // then eyaml keys, namespaces and repositories
      ensures AppsDeclared && SettingsCheck(Settings, host).None? && CertificatesAdmissible(Certificates, Settings, host)
              && EyamlCheck(Settings).Some? ==>
                outcome == Failed(EyamlKeysUnpaired)
      ensures AppsDeclared && SettingsCheck(Settings, host).None? && CertificatesAdmissible(Certificates, Settings, host)
              && EyamlCheck(Settings).None? && NamespacesCheck(Namespaces, host).Some? ==>
                outcome == Failed(NoNamespaces)
      ensures AppsDeclared && SettingsCheck(Settings, host).None? && CertificatesAdmissible(Certificates, Settings, host)
              && EyamlCheck(Settings).None? && NamespacesCheck(Namespaces, host).None?
              && (exists k | k in HelmRepos :: !host.ParsesRequestURI(HelmRepos[k])) ==>
                outcome.Failed? && outcome.error.RepoInvalid? && outcome.error.repo in HelmRepos
                && !host.ParsesRequestURI(HelmRepos[outcome.error.repo])
      // and last the releases, each refusal wrapped with its label
      ensures AppsDeclared && Admissible(host) && ThreadReleases(host, Apps, order, map[]).1.Some? ==>
                outcome == Failed(ThreadReleases(host, Apps, order, map[]).1.value)
    {
      order := [];
      if !AppsDeclared {
        return NothingToDo, order;
      }
      var err := SettingsCheck(Settings, host);
      if err.Some? {
        return Failed(err.value), order;
      }
      err := ValidateCertificates(host);
      if err.Some? {
        return Failed(err.value), order;
      }
      err := EyamlCheck(Settings);
      if err.Some? {
        return Failed(err.value), order;
      }
      err := NamespacesCheck(Namespaces, host);
      if err.Some? {
        return Failed(err.value), order;
      }
      err := ValidateRepos(host);
      if err.Some? {
        return Failed(err.value), order;
      }
      err, order := ValidateApps(host);
      if err.Some? {
        return Failed(err.value), order;
      }
      return Passed, order;
    }

    /**
     Groups the releases considered to run by (chart, version), probes each
     pair once, and fails iff some probe reports a problem. `charts` is the
     grouping that was probed.
     */
    method ValidateReleaseCharts(probe: (string, string, string) -> string) returns (err: Option<Error>, ghost charts: ChartGroups)
      ensures GroupsRunningApps(charts, Apps, Apps.Keys)
      ensures err.Some? ==> err.value == ChartValidationFailed
      ensures err.Some? <==> SomeProbeFails(charts, probe, Pairs(charts))
    {
      var groups := GroupByChart();
      PairsFitReleases(groups, Apps);
      var channel := ProbeAll(groups, probe, |Apps|);
      var fail := Drain(channel);
      charts := groups;
      err := if fail then Some(ChartValidationFailed) else None;
    }

    /**
     The probing step of chart validation: one probe per (chart, version)
     pair, each report sent into a channel of the given capacity. Every send
     finds room, and some report is non-empty iff some probe fails.
     */
    static method ProbeAll(groups: ChartGroups, probe: (string, string, string) -> string, capacity: nat) returns (channel: seq<string>)
      requires |Pairs(groups)| <= capacity
      ensures |channel| == |Pairs(groups)|
      ensures AnyReport(channel) <==> SomeProbeFails(groups, probe, Pairs(groups))
    {
      channel := [];
      var queue := Pairs(groups);
      ghost var done: set<(string, string)> := {};
      while queue != {}
        invariant queue <= Pairs(groups) && done == Pairs(groups) - queue
        invariant |channel| + |queue| == |Pairs(groups)|
        invariant AnyReport(channel) <==> SomeProbeFails(groups, probe, done)
        decreases queue
      {
        var p :| p in queue;
        var (chart, version) := p;
        var labels := groups[chart][version];
        RemoveOne(queue, p);
        SomeProbeFailsAdd(groups, probe, done, p);
        var report := probe(Join(labels, LabelSeparator), chart, version);
        // a send never blocks: there is room for every pair's report
        assert |channel| < capacity;
        AnyReportSnoc(channel, report);
        channel := channel + [report];
        done := done + {p};
        queue := queue - {p};
      }
    }

    /** Drains the channel: true iff some report in it is non-empty. */
    static method Drain(channel: seq<string>) returns (fail: bool)
      ensures fail == AnyReport(channel)
    {
      fail := false;
      var i := 0;
      while i < |channel|
        invariant 0 <= i <= |channel|
        invariant fail == AnyReport(channel[..i])
      {
        AnyReportSnoc(channel[..i], channel[i]);
        assert channel[..i + 1] == channel[..i] + [channel[i]];
        if channel[i] != "" {
          fail := true;
        }
        i := i + 1;
      }
      assert channel[..|channel|] == channel;
    }

    /**
     The grouping step of chart validation: every release considered to run
     is filed under its (chart, version) pair, and nothing else is.
     */
    method GroupByChart() returns (groups: ChartGroups)
      ensures GroupsRunningApps(groups, Apps, Apps.Keys)
    {
      groups := map[];
      var pending := Apps.Keys;
      while pending != {}
        invariant pending <= Apps.Keys
        invariant GroupsRunningApps(groups, Apps, Apps.Keys - pending)
        decreases pending
      {
        var app :| app in pending;
        var r := Apps[app];
        GroupsRunningAppsStep(groups, Apps, Apps.Keys - pending, app);
        if r.Enabled {
          groups := AddToGroup(groups, r.Chart, r.Version, app);
        }
        assert Apps.Keys - (pending - {app}) == Apps.Keys - pending + {app};
        pending := pending - {app};
      }
      assert Apps.Keys - pending == Apps.Keys;
    }

    /** True iff `ns` is declared, enabled or not. */
    function IsNamespaceDefined(ns: string): (defined: bool)
      reads this
      ensures defined <==> ns in Namespaces
    {
      ns in Namespaces
    }

    /**
     Adds to the target map every release whose group is requested and
     every explicitly named target; the map only ever grows.
     */
    method MakeTargetMap(groups: seq<string>, targets: seq<string>)
      modifies this`TargetMap
      ensures TargetMap == WithTargets(old(TargetMap), Apps, groups, targets)
    {
      var groupMap: map<string, bool> := map[];
      for i := 0 to |groups|
        modifies {}
        invariant forall g :: g in groupMap <==> g in groups[..i]
        invariant forall g | g in groupMap :: groupMap[g]
      {
        groupMap := groupMap[groups[i] := true];
      }
      assert groups[..|groups|] == groups;
      var apps := Apps;
      var tm := TargetMap;
      ghost var marked: set<string> := {};
      ghost var done: set<string> := {};
      var pending := apps.Keys;
      while pending != {}
        modifies {}
        invariant pending <= apps.Keys && done == apps.Keys - pending
        invariant marked == GroupMembers(apps, groups, done)
        invariant tm == MarkTargeted(old(TargetMap), marked)
        decreases pending
      {
        var appName :| appName in pending;
        GroupMembersInsert(apps, groups, done, appName);
        if apps[appName].Group in groupMap && groupMap[apps[appName].Group] {
          MarkTargetedInsert(old(TargetMap), marked, appName);
          tm := tm[appName := true];
          marked := marked + {appName};
        }
        pending := pending - {appName};
        done := done + {appName};
      }
      for j := 0 to |targets|
        modifies {}
        invariant marked == GroupMembers(apps, groups, apps.Keys) + Elements(targets[..j])
        invariant tm == MarkTargeted(old(TargetMap), marked)
      {
        MarkTargetedInsert(old(TargetMap), marked, targets[j]);
        ElementsPrefix(targets, j);
        tm := tm[targets[j] := true];
        marked := marked + {targets[j]};
      }
      assert targets[..|targets|] == targets;
      TargetMap := tm;
    }

    /**
     With a non-empty target map, disables every release that is not
     targeted, then every namespace that no targeted release names. With an
     empty one, changes nothing.
     */
    method DisableUntargettedApps()
      modifies this`Apps, this`Namespaces
      ensures |TargetMap| == 0 ==> Apps == old(Apps) && Namespaces == old(Namespaces)
      ensures |TargetMap| != 0 ==>
                && Apps == AppsAfterTargeting(old(Apps), TargetMap)
                && Namespaces == NamespacesAfterTargeting(old(Namespaces), old(Apps), TargetMap)
      // disabling a namespace never makes it undefined
      ensures forall ns :: IsNamespaceDefined(ns) <==> ns in old(Namespaces)
    {
      if |TargetMap| == 0 {
        return;
      }
      var apps, namespaces := DisableUntargettedReleases(Apps, TargetMap);
      var nss := DisableUnusedNamespaces(Namespaces, namespaces, Apps, TargetMap);
      Apps := apps;
      Namespaces := nss;
    }

    /**
     The first loop of the cascade: every release outside the target map is
     disabled, and the namespaces of the targeted ones are collected (all
     mapped to true).
     */
    static method DisableUntargettedReleases(apps: map<string, Release>, tm: map<string, bool>)
      returns (apps': map<string, Release>, namespaces: map<string, bool>)
      ensures apps' == AppsAfterTargeting(apps, tm)
      ensures namespaces.Keys == KeptNamespaces(apps, tm)
      ensures forall n | n in namespaces :: namespaces[n]
    {
      apps' := apps;
      namespaces := map[];
      var pending := apps.Keys;
      while pending != {}
        invariant pending <= apps.Keys && apps'.Keys == apps.Keys
        invariant forall a | a in apps && a !in pending ::
                    apps'[a] == if IsTargeted(tm, a) then apps[a] else DisableRelease(apps[a])
        invariant forall a | a in pending :: apps'[a] == apps[a]
        invariant namespaces.Keys == KeptAmong(apps, tm, apps.Keys - pending)
        invariant forall n | n in namespaces :: namespaces[n]
        decreases pending
      {
        var appName :| appName in pending;
        var app := apps'[appName];
        KeptAmongInsert(apps, tm, apps.Keys - pending, appName);
        if !(appName in tm && tm[appName]) {
          apps' := apps'[appName := DisableRelease(app)];
        } else {
          namespaces := namespaces[app.Namespace := true];
        }
        assert apps.Keys - (pending - {appName}) == apps.Keys - pending + {appName};
        pending := pending - {appName};
      }
      assert apps.Keys - pending == apps.Keys;
      AppsAfterTargetingPointwise(apps, tm, apps');
    }

    /**
     The second loop of the cascade: given the namespaces the targeted
     releases of `apps` name, every other namespace is disabled.
     */
    static method DisableUnusedNamespaces(nss: map<string, Namespace>, namespaces: map<string, bool>, ghost apps: map<string, Release>, ghost tm: map<string, bool>)
      returns (nss': map<string, Namespace>)
      requires namespaces.Keys == KeptNamespaces(apps, tm)
      requires forall n | n in namespaces :: namespaces[n]
      ensures nss' == NamespacesAfterTargeting(nss, apps, tm)
    {
      nss' := nss;
      var pending := nss.Keys;
      while pending != {}
        invariant pending <= nss.Keys && nss'.Keys == nss.Keys
        invariant forall n | n in nss && n !in pending ::
                    nss'[n] == if n in namespaces then nss[n] else DisableNamespace(nss[n])
        invariant forall n | n in pending :: nss'[n] == nss[n]
        decreases pending
      {
        var nsName :| nsName in pending;
        if !(nsName in namespaces && namespaces[nsName]) {
          nss' := nss'[nsName := DisableNamespace(nss'[nsName])];
        }
        pending := pending - {nsName};
      }
      NamespacesAfterTargetingPointwise(nss, apps, tm, nss');
    }
  }
}
