/**
 What can be reached by a relation between states, for statements about every run and about
 some run.
 */
module Runs {
  /** Each state is followed by one that the relation allows. */
  ghost predicate IsPath<S(!new)>(r: (S, S) -> bool, path: seq<S>) {
    forall i :: 0 <= i < |path| - 1 ==> r(path[i], path[i + 1])
  }

  ghost predicate Leads<S(!new)>(r: (S, S) -> bool, s: S, t: S) {
    exists path :: IsPath(r, path) && |path| > 0 && path[0] == s && path[|path| - 1] == t
  }

  lemma LeadsToItself<S(!new)>(r: (S, S) -> bool, s: S)
    ensures Leads(r, s, s)
  {
    assert IsPath(r, [s]);
  }

  lemma LeadsBy<S(!new)>(r: (S, S) -> bool, s: S, u: S, t: S)
    requires r(s, u) && Leads(r, u, t)
    ensures Leads(r, s, t)
  {
    var path :| IsPath(r, path) && |path| > 0 && path[0] == u && path[|path| - 1] == t;
    assert IsPath(r, [s] + path);
  }

  lemma {:induction false} LeadsOn<S(!new)>(r: (S, S) -> bool, s: S, u: S, t: S)
    requires Leads(r, s, u) && Leads(r, u, t)
    ensures Leads(r, s, t)
  {
    var path :| IsPath(r, path) && |path| > 0 && path[0] == s && path[|path| - 1] == u;
    PathLeadsOn(r, path, t);
  }

  lemma {:induction false} PathLeadsOn<S(!new)>(r: (S, S) -> bool, path: seq<S>, t: S)
    requires IsPath(r, path) && |path| > 0 && Leads(r, path[|path| - 1], t)
    ensures Leads(r, path[0], t)
  {
    if |path| > 1 {
      assert IsPath(r, path[1..]);
      PathLeadsOn(r, path[1..], t);
      LeadsBy(r, path[0], path[1], t);
    }
  }

  /** What each step of one relation carries over into a step of another, every path does. */
  lemma {:induction false} LeadsUnder<S(!new), T(!new)>(r: (S, S) -> bool, q: (T, T) -> bool, f: S -> T, s: S, t: S)
    requires Leads(r, s, t) && forall u, v :: r(u, v) ==> q(f(u), f(v))
    ensures Leads(q, f(s), f(t))
  {
    var path :| IsPath(r, path) && |path| > 0 && path[0] == s && path[|path| - 1] == t;
    assert IsPath(q, seq(|path|, i requires 0 <= i < |path| => f(path[i])));
  }

  lemma LeadsKeeps<S(!new)>(r: (S, S) -> bool, inv: S -> bool, s: S, t: S)
    requires Leads(r, s, t) && inv(s) && forall u, v :: inv(u) && r(u, v) ==> inv(v)
    ensures inv(t)
  {
    var path :| IsPath(r, path) && |path| > 0 && path[0] == s && path[|path| - 1] == t;
    PathKeeps(r, inv, path);
  }

  lemma {:induction false} PathKeeps<S(!new)>(r: (S, S) -> bool, inv: S -> bool, path: seq<S>)
    requires IsPath(r, path) && |path| > 0 && inv(path[0]) && forall u, v :: inv(u) && r(u, v) ==> inv(v)
    ensures inv(path[|path| - 1])
  {
    if |path| > 1 {
      var init := path[..|path| - 1];
      assert r(path[|path| - 2], path[|path| - 1]);
      PathKeeps(r, inv, init);
    }
  }
}
