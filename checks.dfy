/**
 The per-stanza checks of the validation pipeline that do not loop over
 the document: settings and cluster access, lifecycle hooks, the webhook,
 certificate locations and coverage, eyaml keys, namespaces; and the
 threading of the duplicate tracker through the per-release validator.
 */
module Checks {
  import opened Types

  const S3Prefix := "s3://"
  const GsPrefix := "gs://"
  const AzPrefix := "az://"

  predicate HasBucketPrefix(value: string) {
    S3Prefix <= value || GsPrefix <= value || AzPrefix <= value
  }

  /**
   A certificate location is accepted when the local path exists, or when it
   parses as a request URI AND carries one of the three bucket prefixes; an
   accepted value comes back unchanged, a refused one as "".
   */
  function IsValidCert(value: string, host: Host): (r: (bool, string))
    ensures r.0 <==> host.PathExists(value) || (host.ParsesRequestURI(value) && HasBucketPrefix(value))
    ensures r.0 ==> r.1 == value
    ensures !r.0 ==> r.1 == ""
  {
    var err1 := !host.ParsesRequestURI(value);
    var err2 := !host.PathExists(value);
    if err2 && (err1 || (!(S3Prefix <= value) && !(GsPrefix <= value) && !(AzPrefix <= value))) then
      (false, "")
    else
      (true, value)
  }

  /**
   A web URL that parses but names no local file is refused, while a bucket
   location that parses is accepted without any local file.
   */
  lemma CertLocationExamples(host: Host)
    requires host.ParsesRequestURI("https://example.com/ca.crt") && !host.PathExists("https://example.com/ca.crt")
    requires host.ParsesRequestURI("s3://bucket/ca.crt")
    ensures IsValidCert("https://example.com/ca.crt", host) == (false, "")
    ensures IsValidCert("s3://bucket/ca.crt", host) == (true, "s3://bucket/ca.crt")
  {
    var web := "https://example.com/ca.crt";
    assert web[0] == 'h';
    assert S3Prefix[0] == 's' && GsPrefix[0] == 'g' && AzPrefix[0] == 'a';
    assert !HasBucketPrefix(web);
    assert S3Prefix <= "s3://bucket/ca.crt";
  }

  /** Declarative reading of what the settings, hooks and webhook checks admit. */
  ghost predicate SettingsAdmissible(c: Config, host: Host) {
    && (c.KubeContext != "" || host.HasAmbientKubeContext)
    && (c.ClusterURI != "" ==>
          && host.ParsesRequestURI(c.ClusterURI)
          && c.KubeContext != ""
          && (c.BearerToken || (c.Username != "" && c.Password != ""))
          && (c.BearerToken && c.BearerTokenPath != "" ==> host.PathExists(c.BearerTokenPath)))
    && (c.BearerToken ==> c.ClusterURI != "")
    && (|c.GlobalHooks| != 0 ==> host.ValidateHooks(c.GlobalHooks).0)
    && (c.SlackWebhook != "" ==> host.ParsesRequestURI(c.SlackWebhook))
  }

  /**
   The settings, lifecycle-hook and webhook checks, in their fixed order.
   The zero-config disjunct of the first guard is subsumed by an empty
   kube context: the first error is raised exactly when no kube context is
   named and no ambient one exists.
   */
  function SettingsCheck(c: Config, host: Host): (err: Option<Error>)
    ensures err == Some(NoKubeContext) <==> c.KubeContext == "" && !host.HasAmbientKubeContext
    ensures err.None? <==> SettingsAdmissible(c, host)
    ensures c.BearerToken && c.ClusterURI == "" ==> err.Some?
    ensures err == Some(HooksInvalid(host.ValidateHooks(c.GlobalHooks).1)) <==>
              SettingsAdmissible(c.(GlobalHooks := map[], SlackWebhook := ""), host)
              && |c.GlobalHooks| != 0 && !host.ValidateHooks(c.GlobalHooks).0
  {
    if (c == ZeroConfig || c.KubeContext == "") && !host.HasAmbientKubeContext then
      Some(NoKubeContext)
    else if c.ClusterURI != "" && !host.ParsesRequestURI(c.ClusterURI) then
      Some(BadClusterURI)
    else if c.ClusterURI != "" && c.KubeContext == "" then
      Some(MissingKubeContext)
    else if c.ClusterURI != "" && !c.BearerToken && c.Username == "" then
      Some(MissingUsername)
    else if c.ClusterURI != "" && !c.BearerToken && c.Password == "" then
      Some(MissingPassword)
    else if c.ClusterURI != "" && c.BearerToken && c.BearerTokenPath != "" && !host.PathExists(c.BearerTokenPath) then
      Some(BearerTokenPathNotFound(c.BearerTokenPath))
    else if c.ClusterURI == "" && c.BearerToken then
      Some(BearerTokenWithoutClusterURI)
    else if |c.GlobalHooks| != 0 && !host.ValidateHooks(c.GlobalHooks).0 then
      Some(HooksInvalid(host.ValidateHooks(c.GlobalHooks).1))
    else if c.SlackWebhook != "" && !host.ParsesRequestURI(c.SlackWebhook) then
      Some(BadSlackWebhook)
    else
      None
  }

  /**
   The certificate stanza's coverage rules, checked after every entry has
   passed IsValidCert: a cluster URI demands `caCrt`, and `caKey` as well
   unless a bearer token is used; an empty stanza is refused only when a
   cluster URI is set.
   */
  function CertificateCoverage(certs: map<string, string>, c: Config): (err: Option<Error>)
    ensures err.None? <==>
              (c.ClusterURI != "" ==> "caCrt" in certs && (!c.BearerToken ==> "caKey" in certs))
    ensures |certs| == 0 && c.ClusterURI != "" ==> err == Some(MissingCertificates)
    ensures err.Some? ==> c.ClusterURI != ""
  {
    if |certs| != 0 then
      var caCrt := "caCrt" in certs;
      var caKey := "caKey" in certs;
      if c.ClusterURI != "" && !c.BearerToken then
        if !caCrt || !caKey then Some(MissingCaCrtOrCaKey) else None
      else if c.ClusterURI != "" && c.BearerToken then
        if !caCrt then Some(MissingCaCrt) else None
      else
        None
    else if c.ClusterURI != "" then
      Some(MissingCertificates)
    else
      None
  }

  /** Everything the certificate stage admits: every location valid, coverage met. */
  ghost predicate CertificatesAdmissible(certs: map<string, string>, c: Config, host: Host) {
    && (forall k | k in certs :: IsValidCert(certs[k], host).0)
    && CertificateCoverage(certs, c).None?
  }

  /** The eyaml key paths must be given together or not at all. */
  function EyamlCheck(c: Config): (err: Option<Error>)
    ensures err.None? <==> (c.EyamlPrivateKeyPath == "" <==> c.EyamlPublicKeyPath == "")
    ensures err.Some? ==> err.value == EyamlKeysUnpaired
  {
    if (c.EyamlPrivateKeyPath != "" && c.EyamlPublicKeyPath == "")
       || (c.EyamlPrivateKeyPath == "" && c.EyamlPublicKeyPath != "") then
      Some(EyamlKeysUnpaired)
    else
      None
  }

  /** Without a namespace override, at least one namespace must be declared. */
  function NamespacesCheck(nss: map<string, Namespace>, host: Host): (err: Option<Error>)
    ensures err.None? <==> host.NsOverride != "" || nss != map[]
    ensures err.Some? ==> err.value == NoNamespaces
  {
    if host.NsOverride == "" then
      if |nss| == 0 then Some(NoNamespaces) else None
    else
      None
  }

  /**
   Runs the per-release validator over `order`, threading one duplicate
   tracker through all calls and stopping at the first refusal, which is
   reported with the offending release's label.
   */
  function ThreadReleases(host: Host, apps: map<string, Release>, order: seq<string>, names: Names): (r: (Names, Option<Error>))
    requires forall k | k in order :: k in apps
    ensures r.1.Some? ==> r.1.value.AppInvalid? && r.1.value.appLabel in order
    decreases |order|
  {
    if order == [] then (names, None)
    else
      var v := host.ValidateRelease(order[0], apps[order[0]], names);
      if v.error.Some? then (v.names, Some(AppInvalid(order[0], v.error.value)))
      else ThreadReleases(host, apps, order[1..], v.names)
  }

  /** One more release validated after `order`: the result of the last step, unless an earlier one refused. */
  function ThreadStep(host: Host, apps: map<string, Release>, k: string, prev: (Names, Option<Error>)): (Names, Option<Error>)
    requires k in apps
  {
    if prev.1.Some? then prev
    else
      var v := host.ValidateRelease(k, apps[k], prev.0);
      if v.error.Some? then (v.names, Some(AppInvalid(k, v.error.value))) else (v.names, None)
  }

  /** Validating one more release at the end extends the threaded run by one step. */
  lemma {:induction false} ThreadReleasesSnoc(host: Host, apps: map<string, Release>, order: seq<string>, k: string, names: Names)
    requires forall x | x in order :: x in apps
    requires k in apps
    ensures ThreadReleases(host, apps, order + [k], names) == ThreadStep(host, apps, k, ThreadReleases(host, apps, order, names))
    decreases |order|
  {
    if order == [] {
      assert order + [k] == [k];
      assert [k][1..] == [];
    } else {
      assert (order + [k])[0] == order[0];
      assert (order + [k])[1..] == order[1..] + [k];
      var v := host.ValidateRelease(order[0], apps[order[0]], names);
      if v.error.None? {
        ThreadReleasesSnoc(host, apps, order[1..], k, v.names);
      }
    }
  }
}
