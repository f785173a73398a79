/**
 The grouping behind chart validation: releases considered to run are
 collected per (chart, version) so that each distinct pair is probed once.
 */
module Charts {
  import opened Types

  /** chart -> version -> labels of the releases that use that pair. */
  type ChartGroups = map<string, map<string, seq<string>>>

  /** Separator placed between release labels in a probe's diagnostic. */
  const LabelSeparator := ", "

  /** `strings.Join`: the parts with `sep` between consecutive ones. */
  function Join(parts: seq<string>, sep: string): (r: string)
    ensures |parts| == 1 ==> r == parts[0]
    ensures |parts| == 0 ==> r == ""
  {
    if |parts| == 0 then ""
    else if |parts| == 1 then parts[0]
    else parts[0] + sep + Join(parts[1..], sep)
  }

  predicate InGroup(charts: ChartGroups, chart: string, version: string, app: string) {
    chart in charts && version in charts[chart] && app in charts[chart][version]
  }

  /**
   A well-formed group for (chart, version): non-empty, without repeats,
   and holding only releases drawn from `from` that run that very pair.
   */
  ghost predicate GroupOf(group: seq<string>, chart: string, version: string, apps: map<string, Release>, from: set<string>) {
    && |group| > 0
    && Distinct(group)
    && (forall i | 0 <= i < |group| ::
          && group[i] in apps && group[i] in from
          && apps[group[i]].Enabled
          && apps[group[i]].Chart == chart
          && apps[group[i]].Version == version)
  }

  /**
   `charts` groups exactly the releases of `apps` (among keys `from`) that
   are considered to run: each sits in the group of its own pair, and the
   groups hold nothing else. Since a group member runs that group's pair,
   no release is in two groups.
   */
  ghost predicate GroupsRunningApps(charts: ChartGroups, apps: map<string, Release>, from: set<string>) {
    && (forall a | a in from && a in apps && apps[a].Enabled :: InGroup(charts, apps[a].Chart, apps[a].Version, a))
    && (forall c, v | c in charts && v in charts[c] :: GroupOf(charts[c][v], c, v, apps, from))
  }

  /** Every (chart, version) pair that has a group. */
  function Pairs(charts: ChartGroups): (ps: set<(string, string)>)
    ensures forall c, v :: (c, v) in ps <==> c in charts && v in charts[c]
  {
    set c, v | c in charts && v in charts[c] :: (c, v)
  }

  /** The probe for the pair `p` reports a problem. */
  predicate ProbeFails(charts: ChartGroups, probe: (string, string, string) -> string, p: (string, string)) {
    p.0 in charts && p.1 in charts[p.0] && probe(Join(charts[p.0][p.1], LabelSeparator), p.0, p.1) != ""
  }

  /** Some pair of `ps` fails its probe. */
  predicate SomeProbeFails(charts: ChartGroups, probe: (string, string, string) -> string, ps: set<(string, string)>) {
    exists p | p in ps :: ProbeFails(charts, probe, p)
  }

  /** Probing one more pair fails somewhere iff it failed before or this pair fails. */
  lemma SomeProbeFailsAdd(charts: ChartGroups, probe: (string, string, string) -> string, ps: set<(string, string)>, p: (string, string))
    ensures SomeProbeFails(charts, probe, ps + {p}) <==> SomeProbeFails(charts, probe, ps) || ProbeFails(charts, probe, p)
  {
  }

  /** Some collected report is non-empty. */
  predicate AnyReport(reports: seq<string>) {
    exists i | 0 <= i < |reports| :: reports[i] != ""
  }

  /** One more report is non-empty somewhere iff it was before or the new one is. */
  lemma AnyReportSnoc(reports: seq<string>, report: string)
    ensures AnyReport(reports + [report]) <==> AnyReport(reports) || report != ""
  {
    if AnyReport(reports) {
      var i :| 0 <= i < |reports| && reports[i] != "";
      assert (reports + [report])[i] != "";
    }
    if report != "" {
      assert (reports + [report])[|reports|] != "";
    }
  }

  /** Taking one element out of a finite set shrinks it by one. */
  lemma RemoveOne<T>(s: set<T>, x: T)
    requires x in s
    ensures |s - {x}| == |s| - 1
  {
    assert s == (s - {x}) + {x};
  }

  /**
   The grouping with `app` appended to the group of (chart, version),
   creating the inner map and the group where they do not exist yet.
   */
  function AddToGroup(charts: ChartGroups, chart: string, version: string, app: string): (r: ChartGroups)
    ensures r.Keys == charts.Keys + {chart}
    ensures r[chart].Keys == (if chart in charts then charts[chart].Keys else {}) + {version}
    ensures r[chart][version] == (if InGroupPair(charts, chart, version) then charts[chart][version] else []) + [app]
    ensures forall c, v | InGroupPair(charts, c, v) && (c, v) != (chart, version) :: InGroupPair(r, c, v) && r[c][v] == charts[c][v]
    ensures forall c, v | InGroupPair(r, c, v) && (c, v) != (chart, version) :: InGroupPair(charts, c, v)
  {
    var versions := if chart in charts then charts[chart] else map[];
    var labels := if version in versions then versions[version] else [];
    charts[chart := versions[version := labels + [app]]]
  }

  /** There is a group for (chart, version). */
  predicate InGroupPair(charts: ChartGroups, chart: string, version: string) {
    chart in charts && version in charts[chart]
  }

  /** A group stays well formed when more keys are allowed. */
  lemma GroupOfWiden(group: seq<string>, chart: string, version: string, apps: map<string, Release>, from: set<string>, from': set<string>)
    requires GroupOf(group, chart, version, apps, from) && from <= from'
    ensures GroupOf(group, chart, version, apps, from')
  {
  }

  /** Appending a new running release of the pair keeps a group well formed. */
  lemma GroupOfAppend(group: seq<string>, chart: string, version: string, apps: map<string, Release>, from: set<string>, app: string)
    requires group == [] || GroupOf(group, chart, version, apps, from)
    requires app in apps && app !in from && apps[app].Enabled
    requires apps[app].Chart == chart && apps[app].Version == version
    ensures GroupOf(group + [app], chart, version, apps, from + {app})
  {
    var g := group + [app];
    forall i, j | 0 <= i < j < |g| ensures g[i] != g[j] {
      if j == |group| {
        assert g[i] in from;
      }
    }
  }

  /**
   One step of the grouping loop: looking at one more release keeps the
   grouping exact, whether that release runs (and is appended to its
   pair's group) or not (and is skipped).
   */
  lemma {:induction false} GroupsRunningAppsStep(charts: ChartGroups, apps: map<string, Release>, from: set<string>, app: string)
    requires GroupsRunningApps(charts, apps, from)
    requires app in apps && app !in from
    ensures apps[app].Enabled ==>
              GroupsRunningApps(AddToGroup(charts, apps[app].Chart, apps[app].Version, app), apps, from + {app})
    ensures !apps[app].Enabled ==> GroupsRunningApps(charts, apps, from + {app})
  {
    var c0, v0 := apps[app].Chart, apps[app].Version;
    if apps[app].Enabled {
      var r := AddToGroup(charts, c0, v0, app);
      forall a | a in from + {app} && a in apps && apps[a].Enabled
        ensures InGroup(r, apps[a].Chart, apps[a].Version, a)
      {
        if a != app {
          assert InGroup(charts, apps[a].Chart, apps[a].Version, a);
        }
      }
      forall c, v | c in r && v in r[c]
        ensures GroupOf(r[c][v], c, v, apps, from + {app})
      {
        if (c, v) == (c0, v0) {
          var prior := if InGroupPair(charts, c0, v0) then charts[c0][v0] else [];
          GroupOfAppend(prior, c0, v0, apps, from, app);
        } else {
          GroupOfWiden(charts[c][v], c, v, apps, from, from + {app});
        }
      }
    } else {
      forall c, v | c in charts && v in charts[c]
        ensures GroupOf(charts[c][v], c, v, apps, from + {app})
      {
        GroupOfWiden(charts[c][v], c, v, apps, from, from + {app});
      }
    }
  }

  /** The first label of a group names a running release of the group's own pair. */
  lemma FirstOfGroup(charts: ChartGroups, apps: map<string, Release>, from: set<string>, c: string, v: string)
    requires GroupsRunningApps(charts, apps, from)
    requires c in charts && v in charts[c]
    ensures |charts[c][v]| > 0
    ensures charts[c][v][0] in apps && charts[c][v][0] in from
    ensures apps[charts[c][v][0]].Chart == c && apps[charts[c][v][0]].Version == v
  {
    assert GroupOf(charts[c][v], c, v, apps, from);
  }

  /** A subset is no larger than its superset. */
  lemma SubsetCardinality<T>(a: set<T>, b: set<T>)
    requires a <= b
    ensures |a| <= |b|
  {
    assert b == a + (b - a);
  }

  /** The first labels of the groups of the pairs `ps`. */
  ghost function FirstLabels(charts: ChartGroups, ps: set<(string, string)>): set<string> {
    set p | p in ps && InGroupPair(charts, p.0, p.1) && |charts[p.0][p.1]| > 0 :: charts[p.0][p.1][0]
  }

  /**
   Distinct pairs have distinct first labels, since a group's first label
   runs that group's own pair; so there are as many first labels as pairs.
   */
  lemma {:induction false} FirstLabelsCount(charts: ChartGroups, apps: map<string, Release>, from: set<string>, ps: set<(string, string)>)
    requires GroupsRunningApps(charts, apps, from)
    requires ps <= Pairs(charts)
    ensures |FirstLabels(charts, ps)| == |ps|
    ensures FirstLabels(charts, ps) <= from
    decreases |ps|
  {
    if ps != {} {
      var p :| p in ps;
      var rest := ps - {p};
      FirstLabelsCount(charts, apps, from, rest);
      FirstOfGroup(charts, apps, from, p.0, p.1);
      var first := charts[p.0][p.1][0];
      assert FirstLabels(charts, ps) == FirstLabels(charts, rest) + {first};
    }
  }

  /**
   A grouping of releases has no more (chart, version) pairs than there are
   releases: a buffer with one slot per release holds one report per pair.
   */
  lemma PairsFitReleases(charts: ChartGroups, apps: map<string, Release>)
    requires GroupsRunningApps(charts, apps, apps.Keys)
    ensures |Pairs(charts)| <= |apps|
  {
    FirstLabelsCount(charts, apps, apps.Keys, Pairs(charts));
    SubsetCardinality(FirstLabels(charts, Pairs(charts)), apps.Keys);
  }

  /** A release is in at most one group: the one of its own pair. */
  lemma GroupsAreDisjoint(charts: ChartGroups, apps: map<string, Release>, from: set<string>, a: string, c1: string, v1: string, c2: string, v2: string)
    requires GroupsRunningApps(charts, apps, from)
    requires InGroup(charts, c1, v1, a) && InGroup(charts, c2, v2, a)
    ensures c1 == c2 && v1 == v2
  {
    var g1 := charts[c1][v1];
    var g2 := charts[c2][v2];
    var i :| 0 <= i < |g1| && g1[i] == a;
    var j :| 0 <= j < |g2| && g2[j] == a;
    assert GroupOf(g1, c1, v1, apps, from);
    assert GroupOf(g2, c2, v2, apps, from);
  }
}
