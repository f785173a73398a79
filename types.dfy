/**
 Entities of a Helm desired-state document and the outside world it is
 checked against: the settings stanza, releases, namespaces, validation
 errors, and the external predicates the admission logic consults.
 */
module Types {

  datatype Option<T> = None | Some(value: T)

  /** The `settings` stanza. Hook configurations are kept as opaque text. */
  datatype Config = Config(
    KubeContext: string,
    Username: string,
    Password: string,
    ClusterURI: string,
    ServiceAccount: string,
    StorageBackend: string,
    SlackWebhook: string,
    ReverseDelete: bool,
    BearerToken: bool,
    BearerTokenPath: string,
    EyamlEnabled: bool,
    EyamlPrivateKeyPath: string,
    EyamlPublicKeyPath: string,
    GlobalHooks: map<string, string>,
    GlobalMaxHistory: int)

  /** The zero value of the settings stanza (what a document without one holds). */
  const ZeroConfig := Config("", "", "", "", "", "", "", false, false, "", false, "", "", map[], 0)

  /** One desired chart deployment. `Enabled` is what `isConsideredToRun` reports. */
  datatype Release = Release(
    Name: string,
    Namespace: string,
    Group: string,
    Chart: string,
    Version: string,
    Enabled: bool,
    Hooks: map<string, string>,
    MaxHistory: int)

  /** A deployment namespace; only its enabled flag takes part in this core. */
  datatype Namespace = Namespace(Enabled: bool)

  /** The per-run duplicate tracker: namespace -> release name -> seen. */
  type Names = map<string, map<string, bool>>

  /** What the per-release validator reports: the updated tracker and an optional error. */
  datatype ReleaseVerdict = ReleaseVerdict(names: Names, error: Option<string>)

  /**
   The predicates the admission logic takes from outside the document:
   URL parsing, file existence, ambient kube context discovery, the hook
   schema validator, the namespace-override flag and the per-release
   validator.
   */
  datatype Host = Host(
    ParsesRequestURI: string -> bool,
    PathExists: string -> bool,
    HasAmbientKubeContext: bool,
    ValidateHooks: map<string, string> -> (bool, string),
    NsOverride: string,
    ValidateRelease: (string, Release, Names) -> ReleaseVerdict)

  /** The reasons a document is refused, one per check of the pipeline. */
  datatype Error =
    | NoKubeContext
    | BadClusterURI
    | MissingKubeContext
    | MissingUsername
    | MissingPassword
    | BearerTokenPathNotFound(path: string)
    | BearerTokenWithoutClusterURI
    | HooksInvalid(message: string)
    | BadSlackWebhook
    | CertificateInvalid(key: string)
    | MissingCaCrtOrCaKey
    | MissingCaCrt
    | MissingCertificates
    | EyamlKeysUnpaired
    | NoNamespaces
    | RepoInvalid(repo: string)
    | AppInvalid(appLabel: string, cause: string)
    | ChartValidationFailed

  /** No label occurs twice. */
  predicate Distinct(s: seq<string>) {
    forall i, j | 0 <= i < j < |s| :: s[i] != s[j]
  }

  /** The three ways validation ends: no apps at all, admitted, or refused. */
  datatype Outcome = NothingToDo | Passed | Failed(error: Error)
}
