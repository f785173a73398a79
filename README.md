# Helmsman desired-state core in Dafny

This project models the admission and selection logic that helmsman runs over
a desired-state document, as found in `internal/app/state.go`. The document
(`state`) holds settings, certificate locations, namespaces, chart repositories,
releases (`apps`) and a target map. Four passes change it or judge it:

- **Defaults resolution** (`setDefaults`). Fills in the storage backend, which
  is published to the process environment when the user set one. It also fills
  in the context name, each release's name, and its inherited hooks and history
  limit.
- **Validation pipeline** (`validate`). Fails fast and runs its checks in a
  fixed order: settings and cluster access, lifecycle hooks, the webhook,
  certificate locations and coverage, eyaml keys, namespaces, chart
  repositories, and the per-release validator.
  - A document without an `apps` stanza ends the run with nothing to do.
  - The certificate map is rewritten in place.
- **Chart validation** (`validateReleaseCharts`). Fails slow. It groups the
  releases considered to run by (chart, version) and runs one probe per pair.
  Each report goes into a channel with one slot per release. The pass fails iff
  some report is non-empty.
- **Target selection and cascading disablement** (`makeTargetMap`,
  `disableUntargettedApps`).
  - Target selection adds to the target map the releases of the requested
    groups and the explicitly named targets.
  - A non-empty target map then disables every untargeted release, and every
    namespace that no targeted release names.

Layout:

| file | module | contents |
|---|---|---|
| `types.dfy` | `Types` | settings, releases, namespaces, the error variants, the outcome of validation, and the outside world as a `Host` value |
| `checks.dfy` | `Checks` | the checks that do not loop over the document, the certificate-location rule, and the threading of the duplicate tracker through the per-release validator |
| `defaults.dfy` | `Defaults` | defaulting and inheritance as functions, and their idempotence |
| `charts.dfy` | `Charts` | the (chart, version) grouping and its invariants, the probe-failure predicates, and the pair count |
| `targets.dfy` | `Targets` | the target map after selection and the document after the cascade, specified as functions |
| `state.dfy` | `App` | `class State`, whose fields are the document's stanzas and whose methods are the passes, each proved against the functions above |

The outside world is a value of type `Host`, which holds these collaborators as
uninterpreted functions or plain values:

- URL parsing (`url.ParseRequestURI`);
- file existence (`os.Stat`);
- the ambient kube context (`getKubeContext`);
- the hook schema validator (`validateHooks`);
- the namespace override flag;
- the per-release validator (`release.validate`), which returns the updated
  duplicate tracker and an optional error.

The chart probe (`validateChart`) is a function parameter of
`ValidateReleaseCharts`.

Go's map iteration order is unspecified. Every loop over a map therefore picks
an arbitrary remaining key (`:|`), and every contract holds whatever order is
taken. Where the order decides which error is reported, the contract says only
that some offending entry is reported.

Two consequences of the code are worth stating, since a reader might expect
otherwise:

- `isValidCert` (`internal/app/state.go:266-273`) accepts a location when the
  local path exists. It also accepts one that parses as a request URI AND
  starts with `s3://`, `gs://` or `az://`. The error message at line 150
  describes the same rule. An `https://` URL that is not also a local path is
  therefore refused (`Checks.CertLocationExamples`).
- Running defaults resolution again on its own output leaves the settings,
  context and releases as they are (`Defaults.DefaultsIdempotent`), but not the
  process environment. A document whose backend was empty publishes nothing on
  the first run, and publishes `HELM_DRIVER=secret` on the second
  (`Defaults.SecondRunPublishesDefaultBackend`).

## Model

| member | source | states |
|---|---|---|
| Checks.IsValidCert | internal/app/state.go:266-273 | valid iff the path exists or (the value parses as a request URI and has an s3/gs/az prefix); a valid value comes back unchanged, an invalid one as "" |
| Checks.CertLocationExamples | internal/app/state.go:266-273 | an https URL that parses but is no local file is refused as (false, ""); an s3 location that parses is accepted unchanged |
| Checks.SettingsCheck | internal/app/state.go:103-142 | the first error is NoKubeContext exactly when the kube context is empty and no ambient one exists (the zero-config disjunct adds nothing); no error iff the cluster URI parses and comes with a kube context and an auth method, an existing bearer token path, no bearer token without a URI, valid hooks and a parsing webhook; the hook validator's message is reported exactly when every earlier settings check passes and the hooks fail, whatever the webhook |
| Checks.CertificateCoverage | internal/app/state.go:155-175 | no error iff a cluster URI comes with caCrt and, without a bearer token, caKey; an empty stanza with a cluster URI fails with MissingCertificates; every error needs a cluster URI |
| Checks.EyamlCheck | internal/app/state.go:177-179 | no error iff the two eyaml key paths are both empty or both set |
| Checks.NamespacesCheck | internal/app/state.go:182-188 | no error iff the namespace override is set or some namespace is declared |
| Checks.ThreadReleases | internal/app/state.go:199-204 | running the per-release validator in a given order, sharing one tracker, refuses only with AppInvalid naming a release of that order |
| Checks.ThreadReleasesSnoc | internal/app/state.go:199-204 | validating one more release extends the threaded run by exactly one step, which is skipped once a refusal happened |
| Defaults.DefaultedBackend | internal/app/state.go:68-73 | a user-set backend is kept and an empty one becomes "secret" |
| Defaults.DefaultedContext | internal/app/state.go:76-78 | a user-set context is kept and an empty one becomes the default context name |
| Defaults.PublishedEnv | internal/app/state.go:68-69 | a user-set backend is published as HELM_DRIVER; every other variable keeps its value and no other variable appears; with no backend the environment is untouched |
| Defaults.InheritHooks | internal/app/state.go:86 | a release with its own hooks is untouched, one without takes the global hooks |
| Defaults.InheritMaxHistory | internal/app/state.go:87 | a release with its own history limit is untouched, one without takes the global limit |
| Defaults.ResolveRelease | internal/app/state.go:80-88 | an empty name becomes the key, hooks and history limit are inherited only when unset, namespace, group, chart, version and enabled flag are kept |
| Defaults.ResolveApps | internal/app/state.go:80-88 | the set of release keys is unchanged, non-empty names are kept, empty names become their keys |
| Defaults.ResolveReleaseIdempotent | internal/app/state.go:80-88 | resolving an already resolved release again changes nothing |
| Defaults.DefaultsIdempotent | internal/app/state.go:67-89 | a second defaults run leaves backend, context and every release as the first run left them |
| Defaults.SecondRunPublishesDefaultBackend | internal/app/state.go:68-73 | an empty backend publishes nothing on the first run but publishes "secret" on the second |
| Charts.Join | internal/app/state.go:236 | joining one label gives that label, joining none gives "" |
| Charts.Pairs | internal/app/state.go:234-235 | a (chart, version) pair is iterated iff it has a group |
| Charts.AddToGroup | internal/app/state.go:223-231 | appending a release creates the inner map and group when missing, puts the release at the end of its pair's group and leaves every other group as it was |
| Charts.GroupsRunningAppsStep | internal/app/state.go:219-232 | one more iteration of the grouping loop keeps the grouping exact: a running release joins its own pair's group, a disabled one is skipped, no label repeats |
| Charts.GroupsAreDisjoint | internal/app/state.go:218-232 | in an exact grouping a release sits in the group of one pair only |
| Charts.FirstLabelsCount | internal/app/state.go:218-235 | distinct groups start with distinct releases, so there are as many first labels as pairs |
| Charts.PairsFitReleases | internal/app/state.go:216-249 | an exact grouping has no more (chart, version) pairs than there are releases, so the channel sized to the releases holds every report |
| Targets.Selected | internal/app/state.go:293-304 | a name is selected iff it is an explicit target or a release whose group is requested |
| Targets.MarkTargeted | internal/app/state.go:299-303 | the keys grow by the marked names, marked names map to true, other entries keep their value |
| Targets.WithTargets | internal/app/state.go:289-305 | the target map afterwards maps every release of a requested group and every named target (release or not) to true, keeps every untouched entry, removes no key and sets nothing to false |
| Targets.DisableRelease | internal/app/state.go:315 | a disabled release is no longer considered to run and nothing else changes |
| Targets.DisableNamespace | internal/app/state.go:322 | a disabled namespace is no longer enabled |
| Targets.KeptNamespaces | internal/app/state.go:312-319 | the kept namespaces are exactly those named by some targeted release, enabled or not |
| Targets.AppsAfterTargeting | internal/app/state.go:313-319 | a release stays enabled iff it was enabled and is targeted; targeted releases are untouched; only the enabled flag changes |
| Targets.NamespacesAfterTargeting | internal/app/state.go:320-324 | a namespace stays enabled iff it was enabled and some targeted release names it; kept namespaces are untouched |
| Targets.SurvivorsKeepTheirNamespace | internal/app/state.go:308-325 | a release still enabled after the cascade finds its declared namespace exactly as it was |
| Targets.UnionSelectionExample | internal/app/state.go:289-305 | selecting group g1 and target app3 yields exactly {app1, app3}: selection is a union |
| Targets.ExampleKeptNamespaces | internal/app/state.go:312-319 | targeting app1 and app3 keeps exactly their namespaces ns1 and ns3 |
| Targets.UnionCascadeExample | internal/app/state.go:308-325 | after that selection app2 is disabled, app1 is untouched and ns2 alone is switched off |
| App.State.SetDefaults | internal/app/state.go:67-89 | backend, environment, context and releases afterwards are the defaulted ones of the old document |
| App.State.ValidateCertificates | internal/app/state.go:145-175 | the map is unchanged; no error iff every location is valid and coverage is met; an invalid location is reported by its key; with all locations valid the error is the coverage verdict |
| App.State.ValidateRepos | internal/app/state.go:191-197 | no error iff every repository URL parses; an error names a repository whose URL does not parse |
| App.State.ValidateApps | internal/app/state.go:199-204 | the verdict is that of the validator threaded over the order taken, which never repeats a release and covers every release on success; a refusal is AppInvalid naming a declared release |
| App.State.Validate | internal/app/state.go:93-207 | nothing to do iff there is no apps stanza; passed iff every check admits the document and every release passes; the first failing stage in the fixed order decides the error; certificates are unchanged |
| App.State.ValidateReleaseCharts | internal/app/state.go:212-262 | the probed grouping holds exactly the releases considered to run, each under its own pair; the result is "chart validation failed" iff some pair's probe reports a non-empty string |
| App.State.GroupByChart | internal/app/state.go:218-232 | the grouping built holds every running release under its (chart, version) pair and nothing else |
| App.State.ProbeAll | internal/app/state.go:234-249 | one report per pair is sent, never more than the channel's capacity, and some report is non-empty iff some pair's probe fails |
| App.State.Drain | internal/app/state.go:251-258 | the fail flag is raised iff some drained report is non-empty |
| App.State.IsNamespaceDefined | internal/app/state.go:276-279 | true iff the namespace is declared, enabled or not, so the cascade (DisableUntargettedApps) leaves every name defined or undefined as it was |
| App.State.MakeTargetMap | internal/app/state.go:289-305 | the target map afterwards is WithTargets of the old one: existing entries kept, requested groups' releases and named targets set to true |
| App.State.DisableUntargettedApps | internal/app/state.go:308-325 | with an empty target map nothing changes; otherwise releases and namespaces are those of AppsAfterTargeting and NamespacesAfterTargeting of the old document; a namespace is defined afterwards iff it was before |
| App.State.DisableUntargettedReleases | internal/app/state.go:312-319 | the first loop yields AppsAfterTargeting and collects exactly the kept namespaces, all mapped to true |
| App.State.DisableUnusedNamespaces | internal/app/state.go:320-324 | the second loop yields NamespacesAfterTargeting |

## Left out

- `fromFile`/`toFile` (file-extension dispatch to external parsers and file I/O), `print` (console output), and all logging: output only, nothing to prove.
- `overrideAppsNamespace` and `updateContextLabels`: thin loops over release methods whose bodies are not part of this model.
- `Metadata`, `PreconfiguredHelmRepos` and `AppsTemplates`: the modelled passes never read them.
- The goroutines, the semaphore of size `resourcePool` and the `WaitGroup` in `validateReleaseCharts`. The probes run one after another in pair order. The buffered channel is a sequence that is only appended to, and each send is checked against its capacity of one slot per release.
- `validateChart` is not part of this model. It is assumed to send exactly one report per pair (empty on success), and is modelled as a string-valued function of the joined labels, the chart and the version.
- `release.go` and `namespace.go` are not part of this model:
  - `inheritHooks` and `inheritMaxHistory` are modelled at field level: a release's own non-empty hooks and non-zero history limit win, otherwise the global value is taken.
  - `isConsideredToRun` is the release's enabled flag, and `Disable` clears it.
  - `release.validate`, which also does the duplicate detection, is an uninterpreted function of the `Host`.
- `defaultContextName` is declared outside `state.go`; the model uses `"default"`.
- Releases and namespaces are pointers in the source and values here. `Disable` on a release is an update of its map entry, so sharing one release between two keys is not modelled.
- A nil map and an empty map are the same value here. The one place the difference matters, a nil `apps` map, is the `AppsDeclared` field. The program exit for that case is the `NothingToDo` outcome.
- Error messages are modelled as variants of `Error`, not as text. Only the hook validator's message and the offending key, repository or release label are carried.
- Charts.Join: states only the zero- and one-label cases; for longer lists the labels joined by the separator are taken as the definition itself.
- App.State.ValidateCertificates: its error-path contract says only that some invalid entry is reported, because which one depends on map iteration order. Entries already rewritten before a refused one are equal to their old values, so the map is unchanged on every path.
