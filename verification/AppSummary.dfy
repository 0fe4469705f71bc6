/**
 The materialised application summaries (backend/domains/agents/app_cache.py:37-70, 183-354)
 against the live query that they replace (backend/domains/agents/apps_router.py:264-337).
 */
module AppSummary {
  import opened Wrappers

  // ---------------------------------------------------------------- the taxonomy matcher

  datatype Category = Category(name: string, display: string)

  datatype TaxonomyEntry = TaxonomyEntry(category: string, display: Option<string>, patterns: seq<string>)

  /** One pattern of the catalogue, in lower case, with the category it stands for. */
  datatype Rule = Rule(key: string, category: Category)

  /** Lower-casing, and the shell-style matching of a pattern. */
  datatype Matching = Matching(lower: string -> string, glob: (string, string) -> bool)

  predicate IsGlob(key: string) { '*' in key || '?' in key || '[' in key }

  function CategoryOf(entry: TaxonomyEntry): Category {
    Category(entry.category, entry.display.GetOr(entry.category))
  }

  function RulesOf(m: Matching, entry: TaxonomyEntry): (r: seq<Rule>)
    ensures |r| == |entry.patterns|
  {
    seq(|entry.patterns|, i requires 0 <= i < |entry.patterns| => Rule(m.lower(entry.patterns[i]), CategoryOf(entry)))
  }

  /** All patterns of the catalogue in order. */
  function Rules(m: Matching, entries: seq<TaxonomyEntry>): seq<Rule> {
    if entries == [] then [] else Rules(m, entries[..|entries| - 1]) + RulesOf(m, entries[|entries| - 1])
  }

  /** The rules of the catalogue are those of its entries, one after the other. */
  lemma {:induction false} RulesAdd(m: Matching, a: seq<TaxonomyEntry>, b: seq<TaxonomyEntry>)
    ensures Rules(m, a + b) == Rules(m, a) + Rules(m, b)
    decreases |b|
  {
    hide RulesOf;
    if b == [] {
      assert a + b == a;
    } else {
      assert (a + b)[..|a + b| - 1] == a + b[..|b| - 1];
      RulesAdd(m, a, b[..|b| - 1]);
    }
  }

  /** The rules of an entry: one for each pattern, in order, in lower case, with the category and
      its display name, for which the category stands in if there is none. */
  lemma RulesMean(m: Matching, entry: TaxonomyEntry, k: nat)
    requires k < |entry.patterns|
    ensures |Rules(m, [entry])| == |entry.patterns|
    ensures var r := Rules(m, [entry])[k];
            && r.key == m.lower(entry.patterns[k]) && r.category.name == entry.category
            && r.category.display == if entry.display.Some? then entry.display.value else entry.category
  {
    assert [entry][..0] == [] && Rules(m, []) == [] && Rules(m, [entry]) == RulesOf(m, entry);
  }

  /** A pattern with one of the characters `*`, `?` and `[` is left to the shell-style matching;
      any other is compared. */
  lemma HitsMean(m: Matching, r: Rule, name: string)
    ensures Hits(r, name) || GlobHits(m, r, name)
       <==> if exists c :: c in r.key && c in "*?[" then m.glob(r.key, name) else r.key == name
    ensures !(Hits(r, name) && GlobHits(m, r, name))
    ensures GlobHits(m, r, name) ==> '*' in r.key || '?' in r.key || '[' in r.key
  {
    assert "*?["[0] == '*' && "*?["[1] == '?' && "*?["[2] == '[';
  }

  predicate Hits(r: Rule, name: string) { !IsGlob(r.key) && r.key == name }

  predicate GlobHits(m: Matching, r: Rule, name: string) { IsGlob(r.key) && m.glob(r.key, name) }

  /** What a lookup must give: the last exact pattern if there is one, before any other; else
      the first glob that matches; else nothing. */
  ghost predicate IsMatch(m: Matching, rules: seq<Rule>, name: string, found: Option<Category>) {
    if exists i :: 0 <= i < |rules| && Hits(rules[i], name) then
      exists i :: 0 <= i < |rules| && Hits(rules[i], name) && found == Some(rules[i].category)
                  && forall j :: i < j < |rules| ==> !Hits(rules[j], name)
    else if exists i :: 0 <= i < |rules| && GlobHits(m, rules[i], name) then
      exists i :: 0 <= i < |rules| && GlobHits(m, rules[i], name) && found == Some(rules[i].category)
                  && forall j :: 0 <= j < i ==> !GlobHits(m, rules[j], name)
    else found == None
  }

  /** There is one answer only. */
  lemma MatchIsUnique(m: Matching, rules: seq<Rule>, name: string, a: Option<Category>, b: Option<Category>)
    requires IsMatch(m, rules, name, a) && IsMatch(m, rules, name, b)
    ensures a == b
  {
    hide Hits, GlobHits;
    if exists i :: 0 <= i < |rules| && Hits(rules[i], name) {
      var i :| 0 <= i < |rules| && Hits(rules[i], name) && a == Some(rules[i].category)
               && forall j :: i < j < |rules| ==> !Hits(rules[j], name);
      var k :| 0 <= k < |rules| && Hits(rules[k], name) && b == Some(rules[k].category)
               && forall j :: k < j < |rules| ==> !Hits(rules[j], name);
      assert i == k;
    } else if exists i :: 0 <= i < |rules| && GlobHits(m, rules[i], name) {
      var i :| 0 <= i < |rules| && GlobHits(m, rules[i], name) && a == Some(rules[i].category)
               && forall j :: 0 <= j < i ==> !GlobHits(m, rules[j], name);
      var k :| 0 <= k < |rules| && GlobHits(m, rules[k], name) && b == Some(rules[k].category)
               && forall j :: 0 <= j < k ==> !GlobHits(m, rules[j], name);
      assert i == k;
    }
  }

  /** What the tables of the matcher hold after the first rules. */
  ghost predicate TablesOk(rules: seq<Rule>, exact: map<string, Category>, globs: seq<Rule>) {
    && globs == Globs(rules)
    && (forall name :: name in exact <==> exists i :: 0 <= i < |rules| && Hits(rules[i], name))
    && forall name :: name in exact ==>
         exists i :: 0 <= i < |rules| && Hits(rules[i], name) && exact[name] == rules[i].category
                     && forall j :: i < j < |rules| ==> !Hits(rules[j], name)
  }

  function Globs(rules: seq<Rule>): seq<Rule> {
    if rules == [] then []
    else Globs(rules[..|rules| - 1]) + if IsGlob(rules[|rules| - 1].key) then [rules[|rules| - 1]] else []
  }

  lemma OneMoreGlob(rules: seq<Rule>, exact: map<string, Category>, globs: seq<Rule>, r: Rule)
    requires TablesOk(rules, exact, globs) && IsGlob(r.key)
    ensures TablesOk(rules + [r], exact, globs + [r])
  {
    var more := rules + [r];
    assert more[..|rules|] == rules;
    assert forall name, i :: 0 <= i < |more| && Hits(more[i], name) ==> i < |rules| && Hits(rules[i], name);
    forall name | name in exact
      ensures exists i :: 0 <= i < |more| && Hits(more[i], name) && exact[name] == more[i].category
                          && forall j :: i < j < |more| ==> !Hits(more[j], name)
    {
      var i :| 0 <= i < |rules| && Hits(rules[i], name) && exact[name] == rules[i].category
               && forall j :: i < j < |rules| ==> !Hits(rules[j], name);
      assert Hits(more[i], name);
    }
  }

  lemma OneMoreExact(rules: seq<Rule>, exact: map<string, Category>, globs: seq<Rule>, r: Rule)
    requires TablesOk(rules, exact, globs) && !IsGlob(r.key)
    ensures TablesOk(rules + [r], exact[r.key := r.category], globs)
  {
    var more, tables := rules + [r], exact[r.key := r.category];
    assert more[..|rules|] == rules && Hits(more[|rules|], r.key);
    assert forall name, i :: 0 <= i < |more| && Hits(more[i], name) && name != r.key ==>
                               i < |rules| && Hits(rules[i], name);
    forall name | name in tables
      ensures exists i :: 0 <= i < |more| && Hits(more[i], name) && tables[name] == more[i].category
                          && forall j :: i < j < |more| ==> !Hits(more[j], name)
    {
      if name != r.key {
        var i :| 0 <= i < |rules| && Hits(rules[i], name) && exact[name] == rules[i].category
                 && forall j :: i < j < |rules| ==> !Hits(rules[j], name);
        assert Hits(more[i], name);
      }
    }
  }

  /** A scan of the globs finds the first rule that would. */
  lemma {:induction false} FirstGlob(m: Matching, rules: seq<Rule>, name: string, k: nat)
    requires k <= |Globs(rules)| && forall j :: 0 <= j < k ==> !m.glob(Globs(rules)[j].key, name)
    ensures k == |Globs(rules)| ==> forall i :: 0 <= i < |rules| ==> !GlobHits(m, rules[i], name)
    ensures k < |Globs(rules)| && m.glob(Globs(rules)[k].key, name) ==>
              exists i :: 0 <= i < |rules| && rules[i] == Globs(rules)[k] && GlobHits(m, rules[i], name)
                          && forall j :: 0 <= j < i ==> !GlobHits(m, rules[j], name)
  {
    if rules != [] {
      var front, r := rules[..|rules| - 1], rules[|rules| - 1];
      var g, n := Globs(front), |Globs(front)|;
      assert forall j :: 0 <= j < n ==> Globs(rules)[j] == g[j];
      assert forall j :: 0 <= j < |front| ==> rules[j] == front[j];
      FirstGlob(m, front, name, if k <= n then k else n);
      if k < n && m.glob(g[k].key, name) {
        var i :| 0 <= i < |front| && front[i] == g[k] && GlobHits(m, front[i], name)
                 && forall j :: 0 <= j < i ==> !GlobHits(m, front[j], name);
        assert rules[i] == Globs(rules)[k] && GlobHits(m, rules[i], name);
      }
      if IsGlob(r.key) {
        assert Globs(rules)[n] == r && |Globs(rules)| == n + 1;
        if k == n && m.glob(r.key, name) {
          assert rules[|front|] == Globs(rules)[k] && GlobHits(m, rules[|front|], name);
        }
      }
    }
  }

  class TaxonomyMatcher {
    const m: Matching
    var exact: map<string, Category>
    var globs: seq<Rule>
    ghost var rules: seq<Rule>

    ghost predicate Valid()
      reads this
    {
      TablesOk(rules, exact, globs)
    }

    constructor (m: Matching, entries: seq<TaxonomyEntry>)
      ensures Valid() && this.m == m && rules == Rules(m, entries)
    {
      this.m := m;
      exact, globs, rules := map[], [], [];
      new;
      hide TablesOk;
      NoRules();
      for i := 0 to |entries|
        invariant Valid() && rules == Rules(m, entries[..i])
      {
        var entry := entries[i];
        for k := 0 to |entry.patterns|
          invariant Valid() && rules == Rules(m, entries[..i]) + RulesOf(m, entry)[..k]
        {
          var key := m.lower(entry.patterns[k]);
          var r := Rule(key, CategoryOf(entry));
          if IsGlob(key) {
            OneMoreGlob(rules, exact, globs, r);
            globs := globs + [r];
          } else {
            OneMoreExact(rules, exact, globs, r);
            exact := exact[key := r.category];
          }
          rules := rules + [r];
        }
        assert entries[..i + 1][..i] == entries[..i];
      }
      assert entries[..|entries|] == entries;
    }

    method Match(name: string) returns (found: Option<Category>)
      requires Valid()
      ensures IsMatch(m, rules, name, found)
    {
      if name in exact { return Some(exact[name]); }
      for k := 0 to |globs|
        invariant forall j :: 0 <= j < k ==> !m.glob(globs[j].key, name)
      {
        if m.glob(globs[k].key, name) {
          FirstGlob(m, rules, name, k);
          return Some(globs[k].category);
        }
      }
      FirstGlob(m, rules, name, |globs|);
      return None;
    }
  }

  lemma NoRules()
    ensures TablesOk([], map[], [])
  {
  }

  // ---------------------------------------------------------------- the two queries

  datatype Install = Install(agent: string, name: string, display: Option<string>, publisher: Option<string>,
                             version: Option<string>, risk: Option<string>, active: Option<bool>)

  /** Records without the field count as active. */
  predicate IsActive(x: Install) { x.active != Some(false) }

  /** The agents that the live query collects for a name. */
  function AgentsWith(apps: seq<Install>, name: string): set<string> {
    set x | x in apps && IsActive(x) && x.name == name :: x.agent
  }

  function Names(apps: seq<Install>): set<string> { set x | x in apps && IsActive(x) :: x.name }

  /** The live query: how many distinct agents have an application. */
  function LiveCounts(apps: seq<Install>): map<string, nat> {
    map name | name in Names(apps) :: |AgentsWith(apps, name)|
  }

  /** The first grouping stage of the rebuild: the first active record of each application on
      each agent; then those of one name, which is what the second stage collects. */
  function FirstOf(apps: seq<Install>, name: string): seq<Install> {
    if apps == [] then []
    else
      var front, x := FirstOf(apps[..|apps| - 1], name), apps[|apps| - 1];
      if IsActive(x) && x.name == name && x.agent !in AgentsIn(front) then front + [x] else front
  }

  function AgentsIn(xs: seq<Install>): set<string> { set x | x in xs :: x.agent }

  lemma AgentsInAppend(xs: seq<Install>, x: Install)
    ensures AgentsIn(xs + [x]) == AgentsIn(xs) + {x.agent}
  {
    assert forall y :: y in xs + [x] <==> y in xs || y == x;
  }

  lemma AgentsWithAppend(apps: seq<Install>, x: Install, name: string)
    ensures AgentsWith(apps + [x], name)
         == AgentsWith(apps, name) + if IsActive(x) && x.name == name then {x.agent} else {}
  {
    assert forall y :: y in apps + [x] <==> y in apps || y == x;
  }

  predicate DistinctAgents(xs: seq<Install>) { forall i, j :: 0 <= i < j < |xs| ==> xs[i].agent != xs[j].agent }

  lemma NewAgentStaysDistinct(xs: seq<Install>, x: Install)
    requires DistinctAgents(xs) && x.agent !in AgentsIn(xs)
    ensures DistinctAgents(xs + [x])
  {
    forall i | 0 <= i < |xs| ensures xs[i].agent != x.agent {
      assert xs[i] in xs;
    }
  }

  /** The rebuild groups by agent first and then counts; the live query counts a set of
      agents.  Both see the same agents, each once. */
  lemma {:induction false} FirstsAreAgents(apps: seq<Install>, name: string)
    ensures AgentsIn(FirstOf(apps, name)) == AgentsWith(apps, name)
    ensures |FirstOf(apps, name)| == |AgentsWith(apps, name)|
    ensures DistinctAgents(FirstOf(apps, name))
  {
    hide AgentsIn, AgentsWith, DistinctAgents;
    if apps == [] {
      NoAgents(name);
    } else {
      var front, x := apps[..|apps| - 1], apps[|apps| - 1];
      assert apps == front + [x];
      FirstsAreAgents(front, name);
      AgentsInAppend(FirstOf(front, name), x);
      AgentsWithAppend(front, x, name);
      if IsActive(x) && x.name == name && x.agent !in AgentsIn(FirstOf(front, name)) {
        NewAgentStaysDistinct(FirstOf(front, name), x);
      }
    }
  }

  lemma NoAgents(name: string)
    ensures AgentsIn([]) == AgentsWith([], name) == {} && DistinctAgents([])
  {
  }

  /** Record `i` is the first active one of its agent for the application. */
  predicate IsFirst(apps: seq<Install>, name: string, i: int) {
    && 0 <= i < |apps| && apps[i].active != Some(false) && apps[i].name == name
    && forall j :: 0 <= j < i && apps[j].active != Some(false) && apps[j].name == name ==>
         apps[j].agent != apps[i].agent
  }

  /** The grouping stages keep the first records of the agents, in order: the `k`-th record kept
      is the one at place `at[k]`. */
  lemma {:induction false} FirstsAreFirst(apps: seq<Install>, name: string) returns (at: seq<nat>)
    ensures |at| == |FirstOf(apps, name)|
    ensures forall k :: 0 <= k < |at| ==> IsFirst(apps, name, at[k]) && FirstOf(apps, name)[k] == apps[at[k]]
    ensures forall k, l :: 0 <= k < l < |at| ==> at[k] < at[l]
    ensures forall i :: IsFirst(apps, name, i) ==> i in at
  {
    if apps == [] {
      at := [];
    } else {
      var n := |apps| - 1;
      var front, x := apps[..n], apps[n];
      at := FirstsAreFirst(front, name);
      FirstsStep(apps, name);
      if IsFirst(apps, name, n) { at := at + [n]; }
      hide IsFirst, FirstOf;
      assert forall k :: 0 <= k < |FirstOf(front, name)| ==> front[at[k]] == apps[at[k]];
    }
  }

  lemma FirstsStep(apps: seq<Install>, name: string)
    requires apps != []
    ensures var n, front := |apps| - 1, apps[..|apps| - 1];
            && (forall i :: i < n ==> (IsFirst(apps, name, i) <==> IsFirst(front, name, i)))
            && FirstOf(apps, name) == FirstOf(front, name) + if IsFirst(apps, name, n) then [apps[n]] else []
    ensures forall i :: IsFirst(apps, name, i) ==> 0 <= i < |apps|
  {
    var n := |apps| - 1;
    var front, x := apps[..n], apps[n];
    AgentSeen(front, name, x.agent);
    assert forall i :: 0 <= i < n ==> front[i] == apps[i];
  }

  lemma AgentSeen(apps: seq<Install>, name: string, agent: string)
    ensures agent in AgentsIn(FirstOf(apps, name))
       <==> exists j :: 0 <= j < |apps| && apps[j].active != Some(false) && apps[j].name == name
                        && apps[j].agent == agent
  {
    FirstsAreAgents(apps, name);
    if agent in AgentsWith(apps, name) {
      var x :| x in apps && IsActive(x) && x.name == name && x.agent == agent;
      var j :| 0 <= j < |apps| && apps[j] == x;
    }
    if j :| 0 <= j < |apps| && apps[j].active != Some(false) && apps[j].name == name && apps[j].agent == agent {
      assert apps[j] in apps && IsActive(apps[j]);
    }
  }

  // ---------------------------------------------------------------- counting

  type Counts = map<string, nat>

  ghost function Sum(m: Counts): nat
    decreases |m|
  {
    if m == map[] then 0
    else
      var k :| k in m;
      m[k] + Sum(m - {k})
  }

  lemma {:induction false} SumWithout(m: Counts, k: string)
    requires k in m
    ensures Sum(m) == m[k] + Sum(m - {k})
    decreases |m|
  {
    var j :| j in m && Sum(m) == m[j] + Sum(m - {j});
    if j != k {
      SumWithout(m - {j}, k);
      SumWithout(m - {k}, j);
      assert m - {j} - {k} == m - {k} - {j};
    }
  }

  /** Counting one more. */
  function Plus(m: Counts, k: string): Counts { m[k := (if k in m then m[k] else 0) + 1] }

  lemma SumPlus(m: Counts, k: string)
    ensures Sum(Plus(m, k)) == Sum(m) + 1
  {
    SumWithout(Plus(m, k), k);
    assert Plus(m, k) - {k} == m - {k};
    if k in m {
      SumWithout(m, k);
    } else {
      assert m - {k} == m;
    }
  }

  /** `v or "unknown"` */
  function Label(v: Option<string>): string { if v.None? || v.value == "" then "unknown" else v.value }

  function Occurrences(labels: seq<string>, k: string): nat {
    if labels == [] then 0 else Occurrences(labels[..|labels| - 1], k) + if labels[|labels| - 1] == k then 1 else 0
  }

  lemma {:induction false} OccurrencesCount(labels: seq<string>, k: string)
    ensures Occurrences(labels, k) == |set i | 0 <= i < |labels| && labels[i] == k|
  {
    var at := set i | 0 <= i < |labels| && labels[i] == k;
    if labels == [] {
      assert at == {};
    } else {
      var n := |labels| - 1;
      var front := labels[..n];
      OccurrencesCount(front, k);
      var before := set i | 0 <= i < |front| && front[i] == k;
      assert at == before + if labels[n] == k then {n} else {};
    }
  }

  function Get(m: Counts, k: string): nat { if k in m then m[k] else 0 }

  /** Counts labels; every label is counted, so the counts add up to their number. */
  method Tally(labels: seq<string>) returns (m: Counts)
    ensures forall k :: Get(m, k) == Occurrences(labels, k)
    ensures Sum(m) == |labels|
  {
    m := map[];
    for i := 0 to |labels|
      invariant forall k :: Get(m, k) == Occurrences(labels[..i], k)
      invariant Sum(m) == i
    {
      assert labels[..i + 1][..i] == labels[..i];
      SumPlus(m, labels[i]);
      m := m[labels[i] := (if labels[i] in m then m[labels[i]] else 0) + 1];
    }
    assert labels[..|labels|] == labels;
  }

  function Versions(xs: seq<Install>): (r: seq<string>)
    ensures |r| == |xs|
  {
    seq(|xs|, i requires 0 <= i < |xs| => Label(xs[i].version))
  }

  function Risks(xs: seq<Install>): (r: seq<string>)
    ensures |r| == |xs|
  {
    seq(|xs|, i requires 0 <= i < |xs| => Label(xs[i].risk))
  }

  /** The most frequent label, and of several the one that comes first. */
  ghost predicate IsTop(labels: seq<string>, top: Option<string>) {
    if top.None? then labels == []
    else
      && (forall j :: 0 <= j < |labels| ==> Occurrences(labels, labels[j]) <= Occurrences(labels, top.value))
      && exists i :: 0 <= i < |labels| && labels[i] == top.value
                     && forall j :: 0 <= j < i ==> Occurrences(labels, labels[j]) < Occurrences(labels, top.value)
  }

  lemma TopIsUnique(labels: seq<string>, a: Option<string>, b: Option<string>)
    requires IsTop(labels, a) && IsTop(labels, b)
    ensures a == b
  {
    hide Occurrences;
    if a.Some? && b.Some? {
      var i :| 0 <= i < |labels| && labels[i] == a.value
               && forall j :: 0 <= j < i ==> Occurrences(labels, labels[j]) < Occurrences(labels, a.value);
      var k :| 0 <= k < |labels| && labels[k] == b.value
               && forall j :: 0 <= j < k ==> Occurrences(labels, labels[j]) < Occurrences(labels, b.value);
      assert i == k;
    }
  }

  method TopLabel(labels: seq<string>, m: Counts) returns (top: Option<string>)
    requires forall k :: Get(m, k) == Occurrences(labels, k)
    ensures IsTop(labels, top)
  {
    hide Occurrences;
    if labels == [] { return None; }
    var best := 0;
    for i := 1 to |labels|
      invariant best < i
      invariant forall j :: 0 <= j < i ==> Get(m, labels[j]) <= Get(m, labels[best])
      invariant forall j :: 0 <= j < best ==> Get(m, labels[j]) < Get(m, labels[best])
    {
      if Get(m, labels[i]) > Get(m, labels[best]) { best := i; }
    }
    return Some(labels[best]);
  }

  datatype Agent = Agent(group: Option<string>, site: Option<string>)

  /** A group or a site that is recorded; an empty id counts as none. */
  function Known(id: Option<string>): Option<string> { if id == Some("") then None else id }

  function PlaceOf(agents: map<string, Agent>, a: string, bySite: bool): Option<string> {
    if a !in agents then None else Known(if bySite then agents[a].site else agents[a].group)
  }

  /** Of some agents, those in one place. */
  function AgentsAt(agents: map<string, Agent>, some: set<string>, bySite: bool, place: string): set<string> {
    set a | a in some && PlaceOf(agents, a, bySite) == Some(place)
  }

  function AgentsPlaced(agents: map<string, Agent>, some: set<string>, bySite: bool): set<string> {
    set a | a in some && PlaceOf(agents, a, bySite).Some?
  }

  /** The breakdown by group or by site: each place gets the number of its agents, and the
      agents without a known place are left out. */
  method BreakDown(agents: map<string, Agent>, xs: seq<Install>, bySite: bool) returns (m: Counts)
    requires DistinctAgents(xs)
    ensures forall p :: Get(m, p) == |AgentsAt(agents, AgentsIn(xs), bySite, p)|
    ensures Sum(m) == |AgentsPlaced(agents, AgentsIn(xs), bySite)|
  {
    hide PlaceOf, AgentsAt, AgentsPlaced, AgentsIn, Sum;
    m := map[];
    NowhereYet(agents, bySite);
    SumOfNothing();
    for i := 0 to |xs|
      invariant forall p :: Get(m, p) == |AgentsAt(agents, AgentsIn(xs[..i]), bySite, p)|
      invariant Sum(m) == |AgentsPlaced(agents, AgentsIn(xs[..i]), bySite)|
    {
      var place := PlaceOf(agents, xs[i].agent, bySite);
      OneMoreAgent(agents, xs[..i], xs[i], bySite);
      assert xs[..i + 1] == xs[..i] + [xs[i]];
      if place.Some? {
        SumPlus(m, place.value);
        m := m[place.value := (if place.value in m then m[place.value] else 0) + 1];
      }
    }
    assert xs[..|xs|] == xs;
  }

  lemma SumOfNothing()
    ensures Sum(map[]) == 0
  {
  }

  lemma NowhereYet(agents: map<string, Agent>, bySite: bool)
    ensures AgentsPlaced(agents, AgentsIn([]), bySite) == {}
    ensures forall p :: AgentsAt(agents, AgentsIn([]), bySite, p) == {}
  {
  }

  lemma OneMorePlaced(agents: map<string, Agent>, some: set<string>, a: string, bySite: bool)
    requires a !in some
    ensures |AgentsPlaced(agents, some + {a}, bySite)|
         == |AgentsPlaced(agents, some, bySite)| + if PlaceOf(agents, a, bySite).Some? then 1 else 0
  {
    assert AgentsPlaced(agents, some + {a}, bySite)
        == AgentsPlaced(agents, some, bySite) + if PlaceOf(agents, a, bySite).Some? then {a} else {};
  }

  lemma OneMoreAt(agents: map<string, Agent>, some: set<string>, a: string, bySite: bool, p: string)
    requires a !in some
    ensures |AgentsAt(agents, some + {a}, bySite, p)|
         == |AgentsAt(agents, some, bySite, p)| + if PlaceOf(agents, a, bySite) == Some(p) then 1 else 0
  {
    assert AgentsAt(agents, some + {a}, bySite, p)
        == AgentsAt(agents, some, bySite, p) + if PlaceOf(agents, a, bySite) == Some(p) then {a} else {};
  }

  lemma OneMoreAgent(agents: map<string, Agent>, xs: seq<Install>, x: Install, bySite: bool)
    requires forall i :: 0 <= i < |xs| ==> xs[i].agent != x.agent
    ensures var place, more := PlaceOf(agents, x.agent, bySite), AgentsIn(xs + [x]);
            && |AgentsPlaced(agents, more, bySite)|
               == |AgentsPlaced(agents, AgentsIn(xs), bySite)| + (if place.Some? then 1 else 0)
            && forall p :: |AgentsAt(agents, more, bySite, p)|
                           == |AgentsAt(agents, AgentsIn(xs), bySite, p)| + if place == Some(p) then 1 else 0
  {
    hide PlaceOf, AgentsAt, AgentsPlaced;
    var some := AgentsIn(xs);
    AgentsInAppend(xs, x);
    assert x.agent !in some;
    OneMorePlaced(agents, some, x.agent, bySite);
    forall p
      ensures |AgentsAt(agents, some + {x.agent}, bySite, p)|
           == |AgentsAt(agents, some, bySite, p)| + if PlaceOf(agents, x.agent, bySite) == Some(p) then 1 else 0
    {
      OneMoreAt(agents, some, x.agent, bySite, p);
    }
  }

  // ---------------------------------------------------------------- the rebuild

  datatype Summary = Summary(displayName: string, publisher: Option<string>, agentCount: nat,
                             category: Option<Category>, topRisk: Option<string>, versions: Counts,
                             risks: Counts, groups: Counts, sites: Counts)

  /** The name shown: that of the first record, unless it has none. */
  function ShownName(firsts: seq<Install>, name: string): string {
    if firsts == [] || firsts[0].display.None? || firsts[0].display.value == "" then name else firsts[0].display.value
  }

  function ShownPublisher(firsts: seq<Install>): Option<string> {
    if firsts == [] then None else firsts[0].publisher
  }

  /** A summary against the live query, the catalogue and the agents: the number of agents with
      an active record; name and publisher of the first record; the labels of the agents' first
      records, counted; and the agents with a group or a site, counted by its id. */
  ghost predicate Agrees(s: Summary, apps: seq<Install>, agents: map<string, Agent>, m: Matching, rules: seq<Rule>,
                         name: string)
  {
    var holders := set x | x in apps && x.active != Some(false) && x.name == name :: x.agent;
    var firsts := FirstOf(apps, name);
    && s.agentCount == |holders| && |firsts| == |holders|
    && (firsts != [] ==>
          && s.publisher == firsts[0].publisher
          && s.displayName == if firsts[0].display.None? || firsts[0].display.value == "" then name
                              else firsts[0].display.value)
    && IsTop(Risks(firsts), s.topRisk)
    && IsMatch(m, rules, name, s.category)
    && Sum(s.versions) == s.agentCount && Sum(s.risks) == s.agentCount
    && (forall k :: Get(s.versions, k) == |set i | 0 <= i < |firsts| && Reads(firsts[i].version, k)|)
    && (forall k :: Get(s.risks, k) == |set i | 0 <= i < |firsts| && Reads(firsts[i].risk, k)|)
    && Get(s.groups, "") == 0 && Get(s.sites, "") == 0
    && (forall p :: p != "" ==>
          Get(s.groups, p) == |set a | a in holders && a in agents && agents[a].group == Some(p)|)
    && (forall p :: p != "" ==>
          Get(s.sites, p) == |set a | a in holders && a in agents && agents[a].site == Some(p)|)
    && Sum(s.groups) == |set a | a in holders && a in agents && agents[a].group !in {None, Some("")}|
    && Sum(s.sites) == |set a | a in holders && a in agents && agents[a].site !in {None, Some("")}|
  }

  /** A value is counted under itself, and under "unknown" if it is missing or empty. */
  predicate Reads(v: Option<string>, k: string) {
    if v.Some? && v.value != "" then v.value == k else k == "unknown"
  }

  lemma HoldersAre(apps: seq<Install>, name: string)
    ensures AgentsWith(apps, name) == set x | x in apps && x.active != Some(false) && x.name == name :: x.agent
  {
  }

  lemma LabelsAre(firsts: seq<Install>, k: string)
    ensures Occurrences(Versions(firsts), k) == |set i | 0 <= i < |firsts| && Reads(firsts[i].version, k)|
    ensures Occurrences(Risks(firsts), k) == |set i | 0 <= i < |firsts| && Reads(firsts[i].risk, k)|
  {
    hide Occurrences;
    var v, r := Versions(firsts), Risks(firsts);
    OccurrencesCount(v, k);
    OccurrencesCount(r, k);
    assert (set i | 0 <= i < |v| && v[i] == k) == set i | 0 <= i < |firsts| && Reads(firsts[i].version, k);
    assert (set i | 0 <= i < |r| && r[i] == k) == set i | 0 <= i < |firsts| && Reads(firsts[i].risk, k);
  }

  lemma PlacesAre(agents: map<string, Agent>, some: set<string>, p: string)
    ensures AgentsAt(agents, some, false, "") == {} == AgentsAt(agents, some, true, "")
    ensures p != "" ==>
              (AgentsAt(agents, some, false, p) == set a | a in some && a in agents && agents[a].group == Some(p))
    ensures p != "" ==>
              (AgentsAt(agents, some, true, p) == set a | a in some && a in agents && agents[a].site == Some(p))
    ensures AgentsPlaced(agents, some, false)
         == set a | a in some && a in agents && agents[a].group !in {None, Some("")}
    ensures AgentsPlaced(agents, some, true)
         == set a | a in some && a in agents && agents[a].site !in {None, Some("")}
  {
  }

  method Summarise(apps: seq<Install>, agents: map<string, Agent>, matcher: TaxonomyMatcher, name: string)
    returns (s: Summary)
    requires matcher.Valid()
    ensures Agrees(s, apps, agents, matcher.m, matcher.rules, name)
  {
    hide IsMatch, IsTop, Sum, Occurrences, FirstOf, AgentsAt, AgentsPlaced, AgentsWith, AgentsIn, DistinctAgents, Reads;
    var firsts := FirstOf(apps, name);
    FirstsAreAgents(apps, name);
    HoldersAre(apps, name);
    forall k
      ensures Occurrences(Versions(firsts), k) == |set i | 0 <= i < |firsts| && Reads(firsts[i].version, k)|
      ensures Occurrences(Risks(firsts), k) == |set i | 0 <= i < |firsts| && Reads(firsts[i].risk, k)|
    {
      LabelsAre(firsts, k);
    }
    ghost var holders := AgentsWith(apps, name);
    forall p
      ensures AgentsAt(agents, holders, false, "") == {} == AgentsAt(agents, holders, true, "")
      ensures p != "" ==>
                (AgentsAt(agents, holders, false, p)
                 == set a | a in holders && a in agents && agents[a].group == Some(p))
      ensures p != "" ==>
                (AgentsAt(agents, holders, true, p)
                 == set a | a in holders && a in agents && agents[a].site == Some(p))
    {
      PlacesAre(agents, holders, p);
    }
    PlacesAre(agents, holders, "");
    var category := matcher.Match(name);
    var versions := Tally(Versions(firsts));
    var risks := Tally(Risks(firsts));
    var groups := BreakDown(agents, firsts, false);
    var sites := BreakDown(agents, firsts, true);
    var topRisk := TopLabel(Risks(firsts), risks);
    return Summary(ShownName(firsts, name), ShownPublisher(firsts), |firsts|, category, topRisk, versions, risks,
                   groups, sites);
  }

  class SummaryStore {
    var summaries: map<string, Summary>
    var cached: TaxonomyMatcher?

    /** Rebuilds the collection from the stored records.  Without an active record nothing is
        replaced, so that old summaries stay; otherwise there is one summary for each name
        that the live query would list, and it agrees with that query. */
    method Rebuild(m: Matching, apps: seq<Install>, agents: map<string, Agent>, entries: seq<TaxonomyEntry>)
      returns (count: nat)
      modifies this
      ensures Names(apps) == {} ==> count == 0 && summaries == old(summaries) && cached == old(cached)
      ensures Names(apps) != {} ==>
                && count == |summaries| && summaries.Keys == LiveCounts(apps).Keys
                && (forall name :: name in summaries <==>
                      exists x :: x in apps && x.active != Some(false) && x.name == name)
                && (forall name :: name in summaries ==>
                      summaries[name].agentCount == LiveCounts(apps)[name]
                      && Agrees(summaries[name], apps, agents, m, Rules(m, entries), name))
                && cached != null && fresh(cached) && cached.Valid() && cached.rules == Rules(m, entries)
    {
      hide Agrees, TaxonomyMatcher.Valid, IsActive, AgentsWith;
      var names := Names(apps);
      NamesAre(apps);
      if names == {} { return 0; }
      var matcher := new TaxonomyMatcher(m, entries);
      var docs := BuildDocs(apps, agents, matcher, names);
      cached := matcher;
      summaries := docs;
      forall name | name in docs ensures docs[name].agentCount == LiveCounts(apps)[name] {
        CountIsLive(docs[name], apps, agents, m, Rules(m, entries), name);
      }
      return |docs|;
    }
  }

  method BuildDocs(apps: seq<Install>, agents: map<string, Agent>, matcher: TaxonomyMatcher, names: set<string>)
    returns (docs: map<string, Summary>)
    requires matcher.Valid()
    ensures docs.Keys == names
    ensures forall name :: name in docs ==> Agrees(docs[name], apps, agents, matcher.m, matcher.rules, name)
  {
    hide Agrees;
    docs := map[];
    var rest := names;
    while rest != {}
      invariant rest <= names && docs.Keys == names - rest
      invariant forall name :: name in docs ==> Agrees(docs[name], apps, agents, matcher.m, matcher.rules, name)
      decreases rest
    {
      var name :| name in rest;
      var s := Summarise(apps, agents, matcher, name);
      docs := docs[name := s];
      rest := rest - {name};
    }
  }

  lemma CountIsLive(s: Summary, apps: seq<Install>, agents: map<string, Agent>, m: Matching, rules: seq<Rule>,
                    name: string)
    requires Agrees(s, apps, agents, m, rules, name) && name in Names(apps)
    ensures s.agentCount == LiveCounts(apps)[name]
  {
    HoldersAre(apps, name);
  }

  lemma NamesAre(apps: seq<Install>)
    ensures forall name :: name in Names(apps) <==> exists x :: x in apps && x.active != Some(false) && x.name == name
  {
  }
}
