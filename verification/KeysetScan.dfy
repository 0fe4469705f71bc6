/**
 The paginated scan of a classification run
 (backend/domains/classification/classifier.py:305-505).  Between any two reads other
 workers may insert and delete agents as they like: every read sees a set of agents of its
 own.
 */
module KeysetScan {
  import opened Wrappers

  /** Object ids have twelve bytes. */
  const ID_LIMIT := 0x1_0000_0000_0000_0000_0000_0000

  type Id = x: nat | x < ID_LIMIT

  const BATCH_SIZE := 500

  /** What one read of the agents meets: a failure, or the agents that exist at that moment. */
  datatype Fetch = Failed | Present(agents: set<Id>)

  /** Everything outside the run: the count at its beginning (`None` if that raises), each
      read, whether an agent can be classified, and how many documents each bulk write
      reports as written (`None` if it raises). */
  datatype World = World(count: Option<set<Id>>, fetch: nat -> Fetch, classifies: Id -> bool, write: nat -> Option<int>)

  datatype Status = Completed | RunFailed

  datatype Run = Run(status: Status, classified: int, errors: int, processed: seq<Id>, batches: seq<seq<Id>>,
                     fetches: nat, fetchFailed: bool)

  predicate Increasing(ids: seq<Id>) { forall i, j :: 0 <= i < j < |ids| ==> ids[i] < ids[j] }

  predicate After(id: Id, cursor: Option<Id>) { cursor.None? || id > cursor.value }

  /** The answer to `find({_id: {$gt: cursor}}).sort(_id).limit(500)`. */
  ghost predicate IsPage(page: seq<Id>, agents: set<Id>, cursor: Option<Id>) {
    && Increasing(page) && |page| <= BATCH_SIZE
    && (forall id :: id in page ==> id in agents && After(id, cursor))
    && (forall id :: id in agents && After(id, cursor) ==>
          id in page || (|page| == BATCH_SIZE && id > page[|page| - 1]))
  }

  method Smallest(ids: set<Id>) returns (m: Id)
    requires ids != {}
    ensures m in ids && forall id :: id in ids ==> m <= id
  {
    m :| m in ids;
    var rest := ids - {m};
    while rest != {}
      invariant rest <= ids && m in ids
      invariant forall id :: id in ids ==> id in rest || m <= id
      decreases rest
    {
      var x :| x in rest;
      rest := rest - {x};
      if x < m { m := x; }
    }
  }

  method FetchPage(agents: set<Id>, cursor: Option<Id>) returns (page: seq<Id>)
    ensures IsPage(page, agents, cursor)
  {
    var rest := set id | id in agents && After(id, cursor);
    page := [];
    while rest != {} && |page| < BATCH_SIZE
      invariant rest <= agents && |page| <= BATCH_SIZE && Increasing(page)
      invariant forall id :: id in page ==> id in agents && After(id, cursor)
      invariant forall id :: id in rest ==> page == [] || page[|page| - 1] < id
      invariant forall id :: id in agents && After(id, cursor) ==> id in page || id in rest
      decreases rest
    {
      var m := Smallest(rest);
      rest := rest - {m};
      page := page + [m];
    }
  }

  /** No read so far has failed, and the agent was there in all of them. */
  ghost predicate ThereSoFar(w: World, fetches: nat, id: Id) {
    forall k: nat :: k < fetches ==> w.fetch(k).Present? && id in w.fetch(k).agents
  }

  ghost predicate SeenSomewhere(w: World, fetches: nat, id: Id) {
    exists k: nat :: k < fetches && w.fetch(k).Present? && id in w.fetch(k).agents
  }

  function LastOf(processed: seq<Id>): Option<Id> {
    if processed == [] then None else Some(processed[|processed| - 1])
  }

  /** Everything at or before the cursor that was there all the time has been processed. */
  ghost predicate Covered(w: World, fetches: nat, processed: seq<Id>) {
    forall id: Id :: ThereSoFar(w, fetches, id) && !After(id, LastOf(processed)) ==> id in processed
  }

  ghost predicate ScanInv(w: World, fetches: nat, processed: seq<Id>) {
    && Increasing(processed)
    && (forall id :: id in processed ==> SeenSomewhere(w, fetches, id))
    && Covered(w, fetches, processed)
  }

  /** The next page keeps the order and the coverage. */
  lemma PageExtendsScan(w: World, fetches: nat, processed: seq<Id>, page: seq<Id>)
    requires ScanInv(w, fetches, processed) && w.fetch(fetches).Present?
    requires IsPage(page, w.fetch(fetches).agents, LastOf(processed))
    ensures ScanInv(w, fetches + 1, processed + page)
    ensures forall id :: ThereSoFar(w, fetches + 1, id) && |page| < BATCH_SIZE ==> id in processed + page
  {
    var longer, m := processed + page, fetches + 1;
    forall i, j | 0 <= i < j < |longer| ensures longer[i] < longer[j] {
      if i < |processed| <= j {
        assert longer[j] in page;
        assert longer[i] <= processed[|processed| - 1];
      }
    }
    forall id | id in longer ensures SeenSomewhere(w, m, id) {
      if id in page {
        assert fetches < m && id in w.fetch(fetches).agents;
      } else {
        assert SeenSomewhere(w, fetches, id);
      }
    }
    forall id | ThereSoFar(w, m, id) && (|page| < BATCH_SIZE || !After(id, LastOf(longer))) ensures id in longer {
      assert fetches < m && id in w.fetch(fetches).agents;
      if !After(id, LastOf(processed)) {
        assert ThereSoFar(w, fetches, id);
      } else if page != [] {
        assert LastOf(longer) == Some(page[|page| - 1]);
      }
    }
  }

  /** One batch: every agent is classified or counted as an error, and then the write is
      reconciled with what was really written. */
  method ProcessBatch(w: World, page: seq<Id>, batch: nat) returns (classified: int, errors: int)
    ensures classified + errors == |page|
    ensures classified == Stored(w, page, batch)
    ensures var results := |set i | 0 <= i < |page| && w.classifies(page[i])|;
            && (results > 0 && w.write(batch).None? ==> classified == 0)
            && (results > 0 && w.write(batch).Some? ==>
                  classified == if w.write(batch).value < results then w.write(batch).value else results)
            && (results == 0 ==> classified == 0)
  {
    ClassifiableCounts(w, page);
    classified, errors := 0, 0;
    for i := 0 to |page|
      invariant classified + errors == i
      invariant classified == Classifiable(w, page[..i])
    {
      assert page[..i + 1][..i] == page[..i];
      if w.classifies(page[i]) {
        classified := classified + 1;
      } else {
        errors := errors + 1;
      }
    }
    assert page[..|page|] == page;
    var results := classified;
    if results > 0 {
      var written := w.write(batch);
      if written.None? {
        errors := errors + results;
        classified := classified - results;
      } else {
        var failed := results - written.value;
        if failed > 0 {
          errors := errors + failed;
          classified := classified - failed;
        }
      }
    }
  }

  function Classifiable(w: World, page: seq<Id>): nat {
    if page == [] then 0
    else Classifiable(w, page[..|page| - 1]) + if w.classifies(page[|page| - 1]) then 1 else 0
  }

  lemma {:induction false} ClassifiableCounts(w: World, page: seq<Id>)
    ensures Classifiable(w, page) == |set i | 0 <= i < |page| && w.classifies(page[i])|
  {
    var some := set i | 0 <= i < |page| && w.classifies(page[i]);
    if page == [] {
      assert some == {};
    } else {
      var n := |page| - 1;
      var front := page[..n];
      ClassifiableCounts(w, front);
      var before := set i | 0 <= i < |front| && w.classifies(front[i]);
      assert some == before + if w.classifies(page[n]) then {n} else {};
    }
  }

  lemma {:induction false} ClassifiableAdds(w: World, a: seq<Id>, b: seq<Id>)
    ensures Classifiable(w, a + b) == Classifiable(w, a) + Classifiable(w, b)
    decreases |b|
  {
    if b == [] {
      assert a + b == a;
    } else {
      assert (a + b)[..|a + b| - 1] == a + b[..|b| - 1];
      ClassifiableAdds(w, a, b[..|b| - 1]);
    }
  }

  /** What a batch leaves in the collection: what was classifiable, less what was not written. */
  function Stored(w: World, page: seq<Id>, batch: nat): int {
    var results := Classifiable(w, page);
    if results == 0 then 0
    else if w.write(batch).None? then 0
    else if w.write(batch).value < results then w.write(batch).value
    else results
  }

  function Flatten(batches: seq<seq<Id>>): seq<Id> {
    if batches == [] then [] else Flatten(batches[..|batches| - 1]) + batches[|batches| - 1]
  }

  function StoredInAll(w: World, batches: seq<seq<Id>>): int {
    if batches == [] then 0
    else StoredInAll(w, batches[..|batches| - 1]) + Stored(w, batches[|batches| - 1], |batches| - 1)
  }

  /** No bulk write raises or leaves anything out. */
  ghost predicate WritesSucceed(w: World) {
    forall k: nat :: w.write(k).Some? && w.write(k).value >= BATCH_SIZE
  }

  /** When writes succeed, all that is classifiable is stored; when they all raise, nothing is. */
  lemma {:induction false} StoredBounds(w: World, batches: seq<seq<Id>>)
    requires forall b :: b in batches ==> |b| <= BATCH_SIZE
    ensures WritesSucceed(w) ==> StoredInAll(w, batches) == Classifiable(w, Flatten(batches))
    ensures (forall k: nat :: w.write(k).None?) ==> StoredInAll(w, batches) == 0
  {
    if batches != [] {
      var front, last := batches[..|batches| - 1], batches[|batches| - 1];
      StoredBounds(w, front);
      ClassifiableAdds(w, Flatten(front), last);
      ClassifiableWithin(w, last);
      assert last in batches;
    }
  }

  lemma {:induction false} ClassifiableWithin(w: World, page: seq<Id>)
    ensures Classifiable(w, page) <= |page|
  {
    if page != [] { ClassifiableWithin(w, page[..|page| - 1]); }
  }

  lemma OneMoreBatch(w: World, batches: seq<seq<Id>>, page: seq<Id>)
    ensures Flatten(batches + [page]) == Flatten(batches) + page
    ensures StoredInAll(w, batches + [page]) == StoredInAll(w, batches) + Stored(w, page, |batches|)
  {
    assert (batches + [page])[..|batches|] == batches;
  }

  lemma NothingYet(w: World)
    ensures ScanInv(w, 0, []) && Flatten([]) == [] && StoredInAll(w, []) == 0
  {
  }

  /** A whole run.  However the agents change between the reads, they are processed in
      strictly increasing order of id, so none twice; each was there when it was read; and if
      no read failed, every agent that was there throughout has been processed.  The counters
      add up to what was processed, and one more if a read failed; and the classified ones
      are those that the bulk writes stored. */
  method RunClassification(w: World) returns (r: Run)
    ensures r.status.RunFailed? <==> w.count.None?
    ensures Increasing(r.processed)
    ensures forall id :: id in r.processed ==> SeenSomewhere(w, r.fetches, id)
    ensures r.fetchFailed <==> exists k: nat :: k < r.fetches && w.fetch(k).Failed?
    ensures r.status.Completed? && !r.fetchFailed ==>
              forall id: Id :: id in w.count.value && ThereSoFar(w, r.fetches, id) ==> id in r.processed
    ensures r.processed == Flatten(r.batches) && r.classified == StoredInAll(w, r.batches)
    ensures r.classified + r.errors == |r.processed| + (if r.fetchFailed || r.status.RunFailed? then 1 else 0)
    ensures WritesSucceed(w) ==> r.classified == Classifiable(w, r.processed)
    ensures (forall k: nat :: w.write(k).None?) ==> r.classified == 0
  {
    hide Flatten, StoredInAll, Stored, SeenSomewhere, Covered, Increasing, ThereSoFar;
    NothingYet(w);
    if w.count.None? {
      return Run(RunFailed, 0, 1, [], [], 0, false);
    }
    if |w.count.value| == 0 {
      return Run(Completed, 0, 0, [], [], 0, false);
    }
    var classified, errors := 0, 0;
    var processed: seq<Id> := [];
    var batches: seq<seq<Id>> := [];
    var lastSeen: Option<Id> := None;
    var fetches := 0;
    var fetchFailed, done := false, false;
    while !done
      invariant lastSeen == LastOf(processed)
      invariant ScanInv(w, fetches, processed)
      invariant fetchFailed ==> done && fetches > 0 && w.fetch(fetches - 1).Failed?
      invariant !fetchFailed ==> forall k: nat :: k < fetches ==> w.fetch(k).Present?
      invariant |batches| <= fetches && (!done ==> |batches| == fetches)
      invariant processed == Flatten(batches) && classified == StoredInAll(w, batches)
      invariant forall b :: b in batches ==> |b| <= BATCH_SIZE
      invariant classified + errors == |processed| + (if fetchFailed then 1 else 0)
      invariant done && !fetchFailed ==> forall id: Id :: ThereSoFar(w, fetches, id) ==> id in processed
      decreases if done then 0 else 1, ID_LIMIT - if lastSeen.None? then -1 else lastSeen.value
    {
      var read := w.fetch(fetches);
      if read.Failed? {
        FailedReadKeepsScan(w, fetches, processed);
        errors := errors + 1;
        fetchFailed, done := true, true;
        fetches := fetches + 1;
      } else {
        var page := FetchPage(read.agents, lastSeen);
        PageExtendsScan(w, fetches, processed, page);
        if page == [] {
          assert processed + page == processed;
          done := true;
          fetches := fetches + 1;
        } else {
          lastSeen := Some(page[|page| - 1]);
          assert page[|page| - 1] in page;
          var c, e := ProcessBatch(w, page, fetches);
          classified, errors := classified + c, errors + e;
          OneMoreBatch(w, batches, page);
          processed := processed + page;
          batches := batches + [page];
          fetches := fetches + 1;
          if |page| < BATCH_SIZE { done := true; }
        }
      }
    }
    StoredBounds(w, batches);
    return Run(Completed, classified, errors, processed, batches, fetches, fetchFailed);
  }

  lemma FailedReadKeepsScan(w: World, fetches: nat, processed: seq<Id>)
    requires ScanInv(w, fetches, processed) && w.fetch(fetches).Failed?
    ensures ScanInv(w, fetches + 1, processed)
  {
    var m := fetches + 1;
    forall id | id in processed ensures SeenSomewhere(w, m, id) {
      assert SeenSomewhere(w, fetches, id);
    }
    forall id: Id ensures !ThereSoFar(w, m, id) {
      assert fetches < m && w.fetch(fetches).Failed?;
    }
  }
}
