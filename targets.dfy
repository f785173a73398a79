/**
 Target selection and cascading disablement: which releases a run is
 restricted to, and what is switched off as a consequence.
 */
module Targets {
  import opened Types

  /** The elements of a list of names. */
  function Elements(s: seq<string>): (e: set<string>)
    ensures forall x :: x in e <==> x in s
  {
    set x | x in s
  }

  /** The releases among keys `from` whose group is one of `groups`. */
  function GroupMembers(apps: map<string, Release>, groups: seq<string>, from: set<string>): (s: set<string>)
    ensures forall a :: a in s <==> a in apps && a in from && apps[a].Group in groups
  {
    set a | a in apps && a in from && apps[a].Group in groups
  }

  /** Releases selected by group, plus every explicitly named target (apps or not). */
  function Selected(apps: map<string, Release>, groups: seq<string>, targets: seq<string>): (s: set<string>)
    ensures forall a | a in apps && apps[a].Group in groups :: a in s
    ensures forall t | t in targets :: t in s
    ensures forall x | x in s :: x in targets || (x in apps && apps[x].Group in groups)
  {
    GroupMembers(apps, groups, apps.Keys) + Elements(targets)
  }

  /** `tm` with every name of `s` set to true. */
  function MarkTargeted(tm: map<string, bool>, s: set<string>): (r: map<string, bool>)
    ensures r.Keys == tm.Keys + s
    ensures forall k | k in r :: r[k] == (k in s || tm[k])
  {
    tm + map k | k in s :: true
  }

  /** One more list element is one more set element. */
  lemma ElementsPrefix(s: seq<string>, j: int)
    requires 0 <= j < |s|
    ensures Elements(s[..j + 1]) == Elements(s[..j]) + {s[j]}
  {
    assert s[..j + 1] == s[..j] + [s[j]];
  }

  /** Looking at one more key adds it to the group members iff its group is requested. */
  lemma GroupMembersInsert(apps: map<string, Release>, groups: seq<string>, from: set<string>, x: string)
    ensures x in apps && apps[x].Group in groups ==> GroupMembers(apps, groups, from + {x}) == GroupMembers(apps, groups, from) + {x}
    ensures !(x in apps && apps[x].Group in groups) ==> GroupMembers(apps, groups, from + {x}) == GroupMembers(apps, groups, from)
  {
  }

  /** Marking one more name is one more map update. */
  lemma MarkTargetedInsert(tm: map<string, bool>, s: set<string>, x: string)
    ensures MarkTargeted(tm, s + {x}) == MarkTargeted(tm, s)[x := true]
  {
  }

  /**
   The target map after selection: every selected name maps to true, every
   other entry keeps its old value; no key disappears and nothing becomes
   false.
   */
  function WithTargets(tm: map<string, bool>, apps: map<string, Release>, groups: seq<string>, targets: seq<string>): (r: map<string, bool>)
    ensures r.Keys == tm.Keys + Selected(apps, groups, targets)
    ensures forall a | a in apps && apps[a].Group in groups :: a in r && r[a]
    ensures forall t | t in targets :: t in r && r[t]
    ensures forall k | k in tm && k !in Selected(apps, groups, targets) :: r[k] == tm[k]
    ensures forall k | k in tm && tm[k] :: r[k]
    ensures forall k | k in r && !r[k] :: k in tm && !tm[k]
  {
    MarkTargeted(tm, Selected(apps, groups, targets))
  }

  /** Present in the target map with the value true. */
  predicate IsTargeted(tm: map<string, bool>, name: string) {
    name in tm && tm[name]
  }

  /** A release's `Disable`: it stops being considered to run. */
  function DisableRelease(r: Release): (r': Release)
    ensures !r'.Enabled
    ensures r'.(Enabled := r.Enabled) == r
  {
    r.(Enabled := false)
  }

  /** A namespace's `Disable`. */
  function DisableNamespace(n: Namespace): (n': Namespace)
    ensures !n'.Enabled
  {
    Namespace(false)
  }

  /** The namespaces named by targeted releases, whether or not those releases are enabled. */
  function KeptNamespaces(apps: map<string, Release>, tm: map<string, bool>): (s: set<string>)
    ensures forall a | a in apps && IsTargeted(tm, a) :: apps[a].Namespace in s
    ensures forall n | n in s :: exists a | a in apps :: IsTargeted(tm, a) && apps[a].Namespace == n
  {
    set a | a in apps && IsTargeted(tm, a) :: apps[a].Namespace
  }

  /** The namespaces named by targeted releases among keys `from`. */
  function KeptAmong(apps: map<string, Release>, tm: map<string, bool>, from: set<string>): (s: set<string>)
    ensures from == apps.Keys ==> s == KeptNamespaces(apps, tm)
  {
    set a | a in apps && a in from && IsTargeted(tm, a) :: apps[a].Namespace
  }

  /** Looking at one more release adds its namespace iff it is targeted. */
  lemma KeptAmongInsert(apps: map<string, Release>, tm: map<string, bool>, from: set<string>, x: string)
    requires x in apps
    ensures IsTargeted(tm, x) ==> KeptAmong(apps, tm, from + {x}) == KeptAmong(apps, tm, from) + {apps[x].Namespace}
    ensures !IsTargeted(tm, x) ==> KeptAmong(apps, tm, from + {x}) == KeptAmong(apps, tm, from)
  {
  }

  /**
   Releases after disablement under a non-empty target map: a release stays
   enabled iff it was enabled and is targeted; targeted releases are left
   untouched; only the enabled flag ever changes.
   */
  function AppsAfterTargeting(apps: map<string, Release>, tm: map<string, bool>): (r: map<string, Release>)
    ensures r.Keys == apps.Keys
    ensures forall a | a in apps :: r[a].Enabled == (apps[a].Enabled && IsTargeted(tm, a))
    ensures forall a | a in apps && IsTargeted(tm, a) :: r[a] == apps[a]
    ensures forall a | a in apps :: r[a].(Enabled := apps[a].Enabled) == apps[a]
  {
    map a | a in apps :: if IsTargeted(tm, a) then apps[a] else DisableRelease(apps[a])
  }

  /**
   Namespaces after disablement under a non-empty target map: a namespace
   stays enabled iff it was enabled and some targeted release names it;
   namespaces kept alive this way are untouched.
   */
  function NamespacesAfterTargeting(nss: map<string, Namespace>, apps: map<string, Release>, tm: map<string, bool>): (r: map<string, Namespace>)
    ensures r.Keys == nss.Keys
    ensures forall n | n in nss :: r[n].Enabled == (nss[n].Enabled && exists a | a in apps :: IsTargeted(tm, a) && apps[a].Namespace == n)
    ensures forall n | n in nss && n in KeptNamespaces(apps, tm) :: r[n] == nss[n]
  {
    var kept := KeptNamespaces(apps, tm);
    map n | n in nss :: if n in kept then nss[n] else DisableNamespace(nss[n])
  }

  /** A map that disables exactly the releases outside the target map is AppsAfterTargeting. */
  lemma AppsAfterTargetingPointwise(apps: map<string, Release>, tm: map<string, bool>, r: map<string, Release>)
    requires r.Keys == apps.Keys
    requires forall a | a in apps :: r[a] == if IsTargeted(tm, a) then apps[a] else DisableRelease(apps[a])
    ensures r == AppsAfterTargeting(apps, tm)
  {
  }

  /** A map that disables exactly the namespaces outside `kept` is NamespacesAfterTargeting. */
  lemma NamespacesAfterTargetingPointwise(nss: map<string, Namespace>, apps: map<string, Release>, tm: map<string, bool>, r: map<string, Namespace>)
    requires r.Keys == nss.Keys
    requires forall n | n in nss :: r[n] == if n in KeptNamespaces(apps, tm) then nss[n] else DisableNamespace(nss[n])
    ensures r == NamespacesAfterTargeting(nss, apps, tm)
  {
  }

  /**
   After the cascade, every release still enabled has its declared namespace
   exactly as it was before, so no enabled release is left in a namespace
   the cascade switched off.
   */
  lemma SurvivorsKeepTheirNamespace(nss: map<string, Namespace>, apps: map<string, Release>, tm: map<string, bool>, a: string)
    requires a in apps && AppsAfterTargeting(apps, tm)[a].Enabled
    requires apps[a].Namespace in nss
    ensures NamespacesAfterTargeting(nss, apps, tm)[apps[a].Namespace] == nss[apps[a].Namespace]
  {
    assert IsTargeted(tm, a);
    assert apps[a].Namespace in KeptNamespaces(apps, tm);
  }

  /** Three releases in groups g1, g2, g3 and namespaces ns1, ns2, ns3. */
  predicate IsExampleDocument(apps: map<string, Release>) {
    apps == map[
      "app1" := Release("app1", "ns1", "g1", "c", "1", true, map[], 0),
      "app2" := Release("app2", "ns2", "g2", "c", "1", true, map[], 0),
      "app3" := Release("app3", "ns3", "g3", "c", "1", true, map[], 0)]
  }

  /** Union semantics on the example: group g1 selects app1, the name app3 selects app3, and nothing else is selected. */
  lemma UnionSelectionExample(apps: map<string, Release>)
    requires IsExampleDocument(apps)
    ensures WithTargets(map[], apps, ["g1"], ["app3"]) == map["app1" := true, "app3" := true]
  {
    var sel := Selected(apps, ["g1"], ["app3"]);
    forall x | x in sel ensures x == "app1" || x == "app3" {
      if x != "app3" {
        assert x in apps && apps[x].Group == "g1";
      }
    }
    assert sel == {"app1", "app3"};
  }

  /** On the example, selecting app1 and app3 keeps exactly ns1 and ns3 alive. */
  lemma ExampleKeptNamespaces(apps: map<string, Release>)
    requires IsExampleDocument(apps)
    ensures KeptNamespaces(apps, map["app1" := true, "app3" := true]) == {"ns1", "ns3"}
  {
    var tm := map["app1" := true, "app3" := true];
    var kept := KeptNamespaces(apps, tm);
    assert "app1" in apps && IsTargeted(tm, "app1") && apps["app1"].Namespace == "ns1";
    assert "app3" in apps && IsTargeted(tm, "app3") && apps["app3"].Namespace == "ns3";
    forall n | n in kept ensures n == "ns1" || n == "ns3" {
      var a :| a in apps && IsTargeted(tm, a) && apps[a].Namespace == n;
    }
  }

  /** The cascade on the example: app2 is disabled, and so is ns2 which no selected release uses. */
  lemma UnionCascadeExample(apps: map<string, Release>, nss: map<string, Namespace>)
    requires IsExampleDocument(apps)
    requires nss == map["ns1" := Namespace(true), "ns2" := Namespace(true), "ns3" := Namespace(true)]
    ensures var tm := map["app1" := true, "app3" := true];
            && !AppsAfterTargeting(apps, tm)["app2"].Enabled
            && AppsAfterTargeting(apps, tm)["app1"] == apps["app1"]
            && NamespacesAfterTargeting(nss, apps, tm) == map["ns1" := Namespace(true), "ns2" := Namespace(false), "ns3" := Namespace(true)]
  {
    ExampleKeptNamespaces(apps);
  }
}
