/**
 A compliance run executes each distinct check once and copies its result to the other
 controls that ask for the same check (backend/domains/compliance/engine.py:194-368).  The
 reference is the plain run, which executes every control by itself.
 */
module ComplianceEngine {
  import opened CanonicalJson
  import opened Bags

  /** The fields that tell one control from another and that an executor only passes on. */
  datatype Identity = Identity(controlId: string, frameworkId: string, name: string, category: string, severity: string)

  datatype Control = Control(id: Identity, checkType: string, parameters: Json, tags: seq<string>, groups: seq<string>)

  datatype Finding = Finding(status: string, checkedAt: int, total: int, compliant: int, nonCompliant: int,
                             violations: seq<string>, evidence: string)

  datatype CheckResult = CheckResult(id: Identity, finding: Finding)

  datatype Outcome = Raised(error: string) | Returned(result: CheckResult)

  /** What the engine depends on: the registry and its executors, the scope filter, the time
      that goes into error results, and the digest, of which 16 characters are the key. */
  datatype Engine = Engine(has: string -> bool, run: (Control, Json) -> Outcome,
                           scope: (seq<string>, seq<string>) -> Json,
                           now: int, digest: string -> string)

  function KeyJson(e: Engine, c: Control): Json {
    Object(Member("p", c.parameters, Member("s", e.scope(c.tags, c.groups), Member("t", Str(c.checkType), NoMembers))))
  }

  function KeyText(e: Engine, c: Control): string { Dumps(KeyJson(e, c)) }

  function CacheKey(e: Engine, c: Control): string {
    var d := e.digest(KeyText(e, c));
    if |d| <= 16 then d else d[..16]
  }

  function ErrorResult(e: Engine, id: Identity, error: string): CheckResult {
    CheckResult(id, Finding("error", e.now, 0, 0, 0, [], "Check execution error: " + error))
  }

  function Remap(source: CheckResult, c: Control): CheckResult { CheckResult(c.id, source.finding) }

  function Execute(e: Engine, c: Control): Outcome { e.run(c, e.scope(c.tags, c.groups)) }

  /** A raised exception becomes an error result. */
  function Settle(e: Engine, c: Control, o: Outcome): CheckResult {
    match o
    case Returned(r) => r
    case Raised(error) => ErrorResult(e, c.id, error)
  }

  /** The result of a control that is run by itself. */
  function Plain(e: Engine, c: Control): CheckResult { Settle(e, c, Execute(e, c)) }

  /** What a control gets by itself: what its executor returns for its scope, or, if that raises,
      an error result under the control's own identity that counts nothing. */
  lemma PlainMeans(e: Engine, c: Control)
    ensures match e.run(c, e.scope(c.tags, c.groups))
            case Returned(r) => Plain(e, c) == r
            case Raised(error) =>
              && Plain(e, c).id == c.id
              && var f := Plain(e, c).finding;
                 && f.status == "error" && f.checkedAt == e.now
                 && f.total == 0 && f.compliant == 0 && f.nonCompliant == 0 && f.violations == []
                 && f.evidence == "Check execution error: " + error
  {
  }

  /** The key record, key by key, and the key: the first sixteen characters of its digest. */
  lemma KeyMeans(e: Engine, c: Control)
    ensures KeyJson(e, c).Object? && Ascending(KeyJson(e, c).members) && |AsMap(KeyJson(e, c).members)| == 3
    ensures Has(KeyJson(e, c).members, "t", Str(c.checkType)) && Has(KeyJson(e, c).members, "p", c.parameters)
    ensures Has(KeyJson(e, c).members, "s", e.scope(c.tags, c.groups))
    ensures var d := e.digest(Dumps(KeyJson(e, c)));
            if |d| <= 16 then CacheKey(e, c) == d else |CacheKey(e, c)| == 16 && CacheKey(e, c) == d[..16]
  {
    var m0 := KeyJson(e, c).members;
    var m1 := m0.rest;
    var m2 := m1.rest;
    PrecedesAt("p", "s", 0);
    PrecedesAt("s", "t", 0);
    hide Precedes, AsMap, Ascending, Has;
    NoMoreMembers();
    PushMember(m2);
    PushMember(m1);
    PushMember(m0);
  }

  /** A copied result has the finding of the source and the identity of the control. */
  lemma RemapMeans(source: CheckResult, c: Control)
    ensures Remap(source, c).finding == source.finding && Remap(source, c).id == c.id
  {
  }

  function PlainAll(e: Engine, cs: seq<Control>): (r: seq<CheckResult>)
    ensures |r| == |cs|
  {
    seq(|cs|, i requires 0 <= i < |cs| => Plain(e, cs[i]))
  }

  /** The controls whose check type has an executor. */
  function Active(e: Engine, cs: seq<Control>): seq<Control> {
    if cs == [] then []
    else Active(e, cs[..|cs| - 1]) + if e.has(cs[|cs| - 1].checkType) then [cs[|cs| - 1]] else []
  }

  /** Exactly the controls with an executor, as often as they are given, in their order. */
  lemma {:induction false} ActiveAdds(e: Engine, a: seq<Control>, b: seq<Control>)
    ensures Active(e, a + b) == Active(e, a) + Active(e, b)
    decreases |b|
  {
    if b == [] {
      assert a + b == a;
    } else {
      assert (a + b)[..|a + b| - 1] == a + b[..|b| - 1];
      ActiveAdds(e, a, b[..|b| - 1]);
    }
  }

  lemma {:induction false} ActiveMeans(e: Engine, cs: seq<Control>, c: Control)
    ensures Active(e, [c]) == if e.has(c.checkType) then [c] else []
    ensures c in Active(e, cs) <==> c in cs && e.has(c.checkType)
  {
    assert [c][..0] == [];
    if cs != [] {
      assert cs == cs[..|cs| - 1] + [cs[|cs| - 1]];
      ActiveMeans(e, cs[..|cs| - 1], c);
    }
  }

  predicate SameCheck(e: Engine, c: Control, d: Control) {
    c.checkType == d.checkType && c.parameters == d.parameters && e.scope(c.tags, c.groups) == e.scope(d.tags, d.groups)
  }

  /** The same outcome with another control's identity. */
  function OutcomeFor(o: Outcome, c: Control): Outcome {
    if o.Returned? then Returned(Remap(o.result, c)) else o
  }

  /** An executor looks at the check only; the identity it just writes into the result. */
  ghost predicate IdentityFree(e: Engine) {
    forall c: Control, d: Control :: SameCheck(e, c, d) ==> Execute(e, d) == OutcomeFor(Execute(e, c), d)
  }

  /** No two of these controls have different key texts and the same key. */
  predicate NoCollision(e: Engine, cs: seq<Control>) {
    forall c, d :: c in cs && d in cs && CacheKey(e, c) == CacheKey(e, d) ==> KeyText(e, c) == KeyText(e, d)
  }

  lemma KeyJsonDetermines(e: Engine, c: Control, d: Control)
    requires KeyJson(e, c) == KeyJson(e, d)
    ensures SameCheck(e, c, d)
  {
    var m, n := KeyJson(e, c).members, KeyJson(e, d).members;
    assert m.value == n.value && m.rest.value == n.rest.value && m.rest.rest.value == n.rest.rest.value;
  }

  /** Where keys do not collide, an equal key means an equal check, and then a copied result,
      errors included, is the one that the control would have got by itself. */
  lemma CopyIsPlain(e: Engine, cs: seq<Control>, c: Control, d: Control)
    requires IdentityFree(e) && NoCollision(e, cs) && c in cs && d in cs && CacheKey(e, c) == CacheKey(e, d)
    ensures Remap(Plain(e, c), d) == Plain(e, d)
  {
    hide CacheKey, Dumps, KeyJson;
    DumpsInjective(KeyJson(e, c), KeyJson(e, d));
    KeyJsonDetermines(e, c, d);
  }

  // ---------------------------------------------------------------- grouping

  type Groups = map<string, seq<Control>>

  predicate Distinct(keys: seq<string>) { forall i, j :: 0 <= i < j < |keys| ==> keys[i] != keys[j] }

  /** All groups, one after the other. */
  function Joined(keys: seq<string>, groups: Groups): seq<Control>
    requires forall k :: k in keys ==> k in groups
  {
    if keys == [] then [] else Joined(keys[..|keys| - 1], groups) + groups[keys[|keys| - 1]]
  }

  lemma {:induction false} JoinedIgnores(keys: seq<string>, groups: Groups, k: string, group: seq<Control>)
    requires (forall j :: j in keys ==> j in groups) && k !in keys
    ensures Joined(keys, groups[k := group]) == Joined(keys, groups)
  {
    if keys != [] {
      assert keys[|keys| - 1] in keys;
      JoinedIgnores(keys[..|keys| - 1], groups, k, group);
    }
  }

  /** A control that joins a group in the middle is one more control in all. */
  lemma {:induction false} JoinedGrows(keys: seq<string>, groups: Groups, k: string, c: Control)
    requires (forall j :: j in keys ==> j in groups) && Distinct(keys) && k in keys
    ensures multiset(Joined(keys, groups[k := groups[k] + [c]])) == multiset(Joined(keys, groups)) + multiset{c}
  {
    var front, last := keys[..|keys| - 1], keys[|keys| - 1];
    assert keys == front + [last];
    if last == k {
      JoinedIgnores(front, groups, k, groups[k] + [c]);
    } else {
      JoinedGrows(front, groups, k, c);
    }
  }

  lemma JoinedAppend(keys: seq<string>, groups: Groups, k: string, c: Control)
    requires (forall j :: j in keys ==> j in groups) && k !in keys
    ensures Joined(keys + [k], groups[k := [c]]) == Joined(keys, groups) + [c]
  {
    assert (keys + [k])[..|keys|] == keys;
    JoinedIgnores(keys, groups, k, [c]);
  }

  function Keys(e: Engine, cs: seq<Control>): (r: seq<string>)
    ensures |r| == |cs| && forall i :: 0 <= i < |cs| ==> r[i] == CacheKey(e, cs[i])
  {
    seq(|cs|, i requires 0 <= i < |cs| => CacheKey(e, cs[i]))
  }

  /** `primary` has the first control of each group, and the groups have all of `cs`. */
  ghost predicate Grouped(e: Engine, cs: seq<Control>, primary: seq<Control>, groups: Groups) {
    var keys := Keys(e, primary);
    && Distinct(keys) && (forall k :: k in keys <==> k in groups)
    && (forall k :: k in groups ==> groups[k] != [] && forall c :: c in groups[k] ==> CacheKey(e, c) == k)
    && (forall i :: 0 <= i < |primary| ==> groups[keys[i]][0] == primary[i])
    && multiset(Joined(keys, groups)) == multiset(cs)
  }

  lemma NewGroup(e: Engine, cs: seq<Control>, primary: seq<Control>, groups: Groups, c: Control)
    requires Grouped(e, cs, primary, groups) && CacheKey(e, c) !in groups
    ensures Grouped(e, cs + [c], primary + [c], groups[CacheKey(e, c) := [c]])
  {
    hide CacheKey, Joined;
    var k := CacheKey(e, c);
    assert Keys(e, primary + [c]) == Keys(e, primary) + [k];
    JoinedAppend(Keys(e, primary), groups, k, c);
  }

  lemma LargerGroup(e: Engine, cs: seq<Control>, primary: seq<Control>, groups: Groups, c: Control)
    requires Grouped(e, cs, primary, groups) && CacheKey(e, c) in groups
    ensures Grouped(e, cs + [c], primary, groups[CacheKey(e, c) := groups[CacheKey(e, c)] + [c]])
  {
    hide CacheKey, Joined;
    JoinedGrows(Keys(e, primary), groups, CacheKey(e, c), c);
  }

  method GroupControls(e: Engine, controls: seq<Control>) returns (primary: seq<Control>, groups: Groups)
    ensures Grouped(e, Active(e, controls), primary, groups)
  {
    hide CacheKey, Grouped, Active;
    primary, groups := [], map[];
    NoGroups(e);
    for i := 0 to |controls|
      invariant Grouped(e, Active(e, controls[..i]), primary, groups)
    {
      var c := controls[i];
      assert controls[..i + 1] == controls[..i] + [c];
      ActiveAppend(e, controls[..i], c);
      if !e.has(c.checkType) { continue; }
      var key := CacheKey(e, c);
      if key !in groups {
        NewGroup(e, Active(e, controls[..i]), primary, groups, c);
        groups := groups[key := [c]];
        primary := primary + [c];
      } else {
        LargerGroup(e, Active(e, controls[..i]), primary, groups, c);
        groups := groups[key := groups[key] + [c]];
      }
    }
    assert controls[..|controls|] == controls;
  }

  lemma NoGroups(e: Engine)
    ensures Grouped(e, [], [], map[]) && Active(e, []) == []
  {
  }

  lemma ActiveAppend(e: Engine, cs: seq<Control>, c: Control)
    ensures Active(e, cs + [c]) == if e.has(c.checkType) then Active(e, cs) + [c] else Active(e, cs)
  {
    assert (cs + [c])[..|cs|] == cs;
  }

  // ---------------------------------------------------------------- the run

  /** One execution, and its result copied to the rest of the group. */
  function GroupResults(e: Engine, c: Control, group: seq<Control>): (r: seq<CheckResult>)
    requires group != []
    ensures |r| == |group|
  {
    [Plain(e, c)] + seq(|group| - 1, i requires 0 <= i < |group| - 1 => Remap(Plain(e, c), group[i + 1]))
  }

  /** The first of a group has its own result, and the others its finding under their identity. */
  lemma GroupResultsMean(e: Engine, c: Control, group: seq<Control>, i: nat)
    requires i < |group|
    ensures GroupResults(e, c, group)[i]
         == if i == 0 then Plain(e, c) else CheckResult(group[i].id, Plain(e, c).finding)
  {
    hide Plain;
  }

  function AllResults(e: Engine, primary: seq<Control>, groups: Groups): seq<CheckResult>
    requires forall c :: c in primary ==> CacheKey(e, c) in groups && groups[CacheKey(e, c)] != []
  {
    if primary == [] then []
    else
      var c := primary[|primary| - 1];
      AllResults(e, primary[..|primary| - 1], groups) + GroupResults(e, c, groups[CacheKey(e, c)])
  }

  lemma GroupIsPlain(e: Engine, cs: seq<Control>, c: Control, group: seq<Control>)
    requires IdentityFree(e) && NoCollision(e, cs) && group != [] && group[0] == c
    requires forall d :: d in group ==> d in cs && CacheKey(e, d) == CacheKey(e, c)
    ensures GroupResults(e, c, group) == PlainAll(e, group)
  {
    hide CacheKey, IdentityFree, NoCollision, Plain;
    var r := GroupResults(e, c, group);
    forall i | 0 <= i < |group| ensures r[i] == Plain(e, group[i]) {
      assert group[i] in group && group[0] in group;
      if i > 0 { CopyIsPlain(e, cs, c, group[i]); }
    }
  }

  lemma PlainConcat(e: Engine, a: seq<Control>, b: seq<Control>)
    ensures PlainAll(e, a + b) == PlainAll(e, a) + PlainAll(e, b)
  {
  }

  lemma {:induction false} ResultsArePlain(e: Engine, cs: seq<Control>, primary: seq<Control>, groups: Groups)
    requires IdentityFree(e) && NoCollision(e, cs)
    requires forall c :: c in primary ==> CacheKey(e, c) in groups && groups[CacheKey(e, c)] != []
                                          && groups[CacheKey(e, c)][0] == c
    requires forall k :: k in groups ==> forall d :: d in groups[k] ==> d in cs && CacheKey(e, d) == k
    requires forall k :: k in Keys(e, primary) ==> k in groups
    ensures AllResults(e, primary, groups) == PlainAll(e, Joined(Keys(e, primary), groups))
  {
    hide CacheKey, IdentityFree, NoCollision, Plain, GroupResults;
    if primary != [] {
      var front, c := primary[..|primary| - 1], primary[|primary| - 1];
      assert c in primary && Keys(e, primary)[..|primary| - 1] == Keys(e, front);
      ResultsArePlain(e, cs, front, groups);
      GroupIsPlain(e, cs, c, groups[CacheKey(e, c)]);
      PlainConcat(e, Joined(Keys(e, front), groups), groups[CacheKey(e, c)]);
    }
  }

  lemma PlainOfThree(e: Engine, a: seq<Control>, c: Control, b: seq<Control>)
    ensures multiset(PlainAll(e, a + [c] + b)) == multiset(PlainAll(e, a + b)) + multiset{Plain(e, c)}
  {
    hide Plain;
    assert PlainAll(e, a + [c] + b) == PlainAll(e, a) + [Plain(e, c)] + PlainAll(e, b);
    assert PlainAll(e, a + b) == PlainAll(e, a) + PlainAll(e, b);
  }

  lemma {:induction false} PlainOfPermutation(e: Engine, a: seq<Control>, b: seq<Control>)
    requires multiset(a) == multiset(b)
    ensures multiset(PlainAll(e, a)) == multiset(PlainAll(e, b))
    decreases |a|
  {
    hide Plain, PlainAll;
    SameElements(a, b);
    if a != [] {
      var front, c := a[..|a| - 1], a[|a| - 1];
      assert a == front + [c] + [] && front + [] == front;
      var j := FindLast(a, b);
      assert b == b[..j] + [c] + b[j + 1..];
      PlainOfPermutation(e, front, b[..j] + b[j + 1..]);
      PlainOfThree(e, front, c, []);
      PlainOfThree(e, b[..j], c, b[j + 1..]);
    }
  }

  lemma {:induction false} ActiveIsPart(e: Engine, cs: seq<Control>)
    ensures forall c :: c in Active(e, cs) ==> c in cs
  {
    if cs != [] { ActiveIsPart(e, cs[..|cs| - 1]); }
  }

  lemma {:induction false} JoinedElements(keys: seq<string>, groups: Groups)
    requires forall k :: k in keys ==> k in groups
    ensures forall k, c :: k in keys && c in groups[k] ==> c in Joined(keys, groups)
    ensures forall c :: c in Joined(keys, groups) ==> exists k :: k in keys && c in groups[k]
  {
    if keys != [] {
      var front, last := keys[..|keys| - 1], keys[|keys| - 1];
      JoinedElements(front, groups);
      assert keys == front + [last];
    }
  }

  /** What grouping says about single controls. */
  lemma GroupFacts(e: Engine, cs: seq<Control>, primary: seq<Control>, groups: Groups)
    requires Grouped(e, cs, primary, groups)
    ensures forall c :: c in primary ==> CacheKey(e, c) in groups && groups[CacheKey(e, c)] != []
                                         && groups[CacheKey(e, c)][0] == c
    ensures forall k :: k in groups ==> forall d :: d in groups[k] ==> d in cs && CacheKey(e, d) == k
    ensures forall k :: k in Keys(e, primary) ==> k in groups
    ensures |Joined(Keys(e, primary), groups)| == |cs|
  {
    hide CacheKey;
    var keys := Keys(e, primary);
    JoinedElements(keys, groups);
    SameElements(Joined(keys, groups), cs);
    forall c | c in primary
      ensures CacheKey(e, c) in groups && groups[CacheKey(e, c)] != [] && groups[CacheKey(e, c)][0] == c
    {
      var i :| 0 <= i < |primary| && primary[i] == c;
      assert keys[i] in keys;
    }
  }

  /** The keys that are executed are the keys that occur. */
  lemma GroupKeys(e: Engine, cs: seq<Control>, primary: seq<Control>, groups: Groups)
    requires Grouped(e, cs, primary, groups)
    ensures Distinct(Keys(e, primary))
    ensures forall k :: k in Keys(e, primary) <==> k in Keys(e, cs)
  {
    hide CacheKey;
    var keys := Keys(e, primary);
    JoinedElements(keys, groups);
    SameElements(Joined(keys, groups), cs);
    forall k | k in Keys(e, cs) ensures k in keys {
      var i :| 0 <= i < |cs| && Keys(e, cs)[i] == k;
      assert cs[i] in Joined(keys, groups);
    }
    forall k | k in keys ensures k in Keys(e, cs) {
      assert groups[k][0] in Joined(keys, groups);
      var i :| 0 <= i < |cs| && cs[i] == groups[k][0];
      assert Keys(e, cs)[i] == k;
    }
  }

  lemma {:induction false} CountResults(e: Engine, primary: seq<Control>, groups: Groups)
    requires forall c :: c in primary ==> CacheKey(e, c) in groups && groups[CacheKey(e, c)] != []
    requires forall k :: k in Keys(e, primary) ==> k in groups
    ensures |AllResults(e, primary, groups)| == |Joined(Keys(e, primary), groups)|
  {
    hide CacheKey;
    if primary != [] {
      var front := primary[..|primary| - 1];
      assert Keys(e, primary)[..|primary| - 1] == Keys(e, front);
      CountResults(e, front, groups);
    }
  }

  /** Deduplication changes neither the number of the results nor, where executors ignore
      identities and keys do not collide, the results themselves. */
  lemma RunIsPlain(e: Engine, controls: seq<Control>, primary: seq<Control>, groups: Groups)
    requires Grouped(e, Active(e, controls), primary, groups)
    requires forall c :: c in primary ==> CacheKey(e, c) in groups && groups[CacheKey(e, c)] != []
    ensures |AllResults(e, primary, groups)| == |Active(e, controls)|
    ensures IdentityFree(e) && NoCollision(e, controls)
            ==> multiset(AllResults(e, primary, groups)) == multiset(PlainAll(e, Active(e, controls)))
  {
    hide CacheKey, IdentityFree, Plain, AllResults, PlainAll;
    var cs := Active(e, controls);
    ActiveIsPart(e, controls);
    GroupFacts(e, cs, primary, groups);
    CountResults(e, primary, groups);
    if IdentityFree(e) && NoCollision(e, controls) {
      ResultsArePlain(e, cs, primary, groups);
      PlainOfPermutation(e, Joined(Keys(e, primary), groups), cs);
    }
  }

  lemma AllResultsStep(e: Engine, primary: seq<Control>, groups: Groups, i: nat)
    requires i < |primary|
    requires forall c :: c in primary ==> CacheKey(e, c) in groups && groups[CacheKey(e, c)] != []
    ensures var c := primary[i];
            && c in primary
            && AllResults(e, primary[..i + 1], groups)
               == AllResults(e, primary[..i], groups) + GroupResults(e, c, groups[CacheKey(e, c)])
  {
    hide CacheKey;
    assert primary[..i + 1][..i] == primary[..i];
  }

  /** The result of the control that was executed, and its copies for the rest of the group. */
  method CopyToGroup(e: Engine, c: Control, group: seq<Control>, result: CheckResult)
    returns (copies: seq<CheckResult>)
    requires group != [] && result == Plain(e, c)
    ensures copies == GroupResults(e, c, group)
  {
    hide Plain;
    copies := [result];
    for j := 1 to |group|
      invariant copies == GroupResults(e, c, group)[..j]
    {
      copies := copies + [Remap(result, group[j])];
    }
  }

  /** Maps the outcomes back to all controls, duplicates included. */
  method MapResults(e: Engine, executed: seq<Control>, groups: Groups, raw: seq<Outcome>)
    returns (results: seq<CheckResult>)
    requires forall c :: c in executed ==> CacheKey(e, c) in groups && groups[CacheKey(e, c)] != []
    requires |raw| == |executed| && forall i :: 0 <= i < |raw| ==> raw[i] == Execute(e, executed[i])
    ensures results == AllResults(e, executed, groups)
  {
    hide CacheKey, Execute, Settle, AllResults, GroupResults;
    results := [];
    assert AllResults(e, executed[..0], groups) == [] by { NoResults(e, groups); }
    for i := 0 to |executed|
      invariant results == AllResults(e, executed[..i], groups)
    {
      var c := executed[i];
      AllResultsStep(e, executed, groups, i);
      var copies := CopyToGroup(e, c, groups[CacheKey(e, c)], Settle(e, c, raw[i]));
      results := results + copies;
    }
    assert executed[..|executed|] == executed;
  }

  lemma NoResults(e: Engine, groups: Groups)
    ensures AllResults(e, [], groups) == []
  {
  }

  /** The whole run.  It executes one control per distinct key of the controls that have an
      executor, gives one result per such control, and, if executors ignore identities and
      keys do not collide, those results are the results of running every control by itself,
      in some order. */
  method RunComplianceChecks(e: Engine, controls: seq<Control>)
    returns (results: seq<CheckResult>, executed: seq<Control>, ghost groups: Groups)
    ensures Distinct(Keys(e, executed))
    ensures forall k :: k in Keys(e, executed) <==> k in Keys(e, Active(e, controls))
    ensures |results| == |Active(e, controls)|
    ensures IdentityFree(e) && NoCollision(e, controls)
            ==> multiset(results) == multiset(PlainAll(e, Active(e, controls)))
    ensures Grouped(e, Active(e, controls), executed, groups)
    ensures forall c :: c in executed ==> CacheKey(e, c) in groups && groups[CacheKey(e, c)] != []
    ensures results == AllResults(e, executed, groups)
  {
    hide CacheKey, Execute, Settle, IdentityFree, NoCollision, Grouped, Distinct, Active, Keys;
    var byKey: Groups;
    executed, byKey := GroupControls(e, controls);
    groups := byKey;
    GroupFacts(e, Active(e, controls), executed, groups);
    GroupKeys(e, Active(e, controls), executed, groups);
    var raw: seq<Outcome> := [];
    for i := 0 to |executed|
      invariant |raw| == i && forall j :: 0 <= j < i ==> raw[j] == Execute(e, executed[j])
    {
      raw := raw + [Execute(e, executed[i])];
    }
    results := MapResults(e, executed, byKey, raw);
    RunIsPlain(e, controls, executed, groups);
  }
}
