/**
 Logins, refreshes and revocations as whole requests on the two collections `refresh_tokens`
 and `sessions` (backend/domains/auth/service.py, backend/domains/auth/session_service.py,
 backend/domains/auth/router.py:152-190, 310-406).  Requests do not overlap here and nothing
 expires; TokenFamilies is about overlapping requests.
 */
module AuthSessions {
  import opened Wrappers

  type Token = nat
  type Family = nat
  type SessionId = nat

  datatype TokenDoc = TokenDoc(family: Family, user: string, used: bool)
  datatype SessionDoc = SessionDoc(user: string, family: Family, active: bool)

  type Tokens = map<Token, TokenDoc>
  type Sessions = map<SessionId, SessionDoc>

  /** What is signed into a refresh token. */
  datatype Claims = Claims(token: Token, family: Family, user: string)

  /** What an access token says: its user, and the session if one was found. */
  datatype Access = Access(user: string, session: Option<SessionId>)

  /** The stored state.  Ids are drawn at random; here they are counted, which makes them
      just as fresh.  `issued` has the claims of every token handed out: nobody else can sign. */
  datatype Auth = Auth(tokens: Tokens, sessions: Sessions, nextToken: Token, nextFamily: Family,
                       nextSession: SessionId, issued: set<Claims>)
  {
    predicate Unused(t: Token) { t in tokens && !tokens[t].used }

    /** No unused token is left, so that nobody can refresh in this family. */
    ghost predicate Dead(f: Family) {
      f < nextFamily && forall t :: Unused(t) ==> tokens[t].family != f
    }

    ghost predicate HasActiveSession(f: Family, user: string) {
      exists s :: s in sessions && sessions[s] == SessionDoc(user, f, true)
    }

    ghost predicate TokensOk() {
      && (forall t :: t in tokens ==> Claims(t, tokens[t].family, tokens[t].user) in issued)
      && (forall c :: c in issued ==> c.token < nextToken && c.family < nextFamily)
      && (forall c, d :: c in issued && d in issued && c.token == d.token ==> c == d)
      && (forall c, d :: c in issued && d in issued && c.family == d.family ==> c.user == d.user)
      && (forall t, u :: Unused(t) && Unused(u) && tokens[t].family == tokens[u].family ==> t == u)
    }

    ghost predicate SessionsOk() {
      && (forall s :: s in sessions ==> s < nextSession && sessions[s].family < nextFamily)
      && (forall r, s :: r in sessions && s in sessions && sessions[r].family == sessions[s].family ==> r == s)
    }

    /** Every unused token's family has an active session of the same user. */
    ghost predicate Valid() {
      TokensOk() && SessionsOk() && forall t :: Unused(t) ==> HasActiveSession(tokens[t].family, tokens[t].user)
    }
  }

  const EMPTY := Auth(map[], map[], 0, 0, 0, {})

  /** What requests do to the stored state.  `Revoke` is the revocation of some sessions with
      their families; the two deletions are `revoke_family` and `revoke_user_tokens`. */
  datatype Request =
    | Login(user: string)
    | Refresh(claims: Claims)
    | Revoke(ids: set<SessionId>)
    | DeleteFamily(family: Family)
    | DeleteUser(user: string)

  predicate Possible(v: Auth, q: Request) { q.Refresh? ==> q.claims in v.issued }

  function WithoutFamilies(tokens: Tokens, fs: set<Family>): Tokens {
    map t | t in tokens && tokens[t].family !in fs :: tokens[t]
  }

  function Deactivated(sessions: Sessions, ids: set<SessionId>): Sessions {
    map s | s in sessions :: if s in ids then sessions[s].(active := false) else sessions[s]
  }

  function FamiliesOf(sessions: Sessions, ids: set<SessionId>): set<Family> {
    set s | s in ids && s in sessions :: sessions[s].family
  }

  /** A new token in family `f`. */
  function WithToken(v: Auth, user: string, f: Family): Auth {
    v.(tokens := v.tokens[v.nextToken := TokenDoc(f, user, false)], nextToken := v.nextToken + 1,
       issued := v.issued + {Claims(v.nextToken, f, user)})
  }

  function WithSession(v: Auth, user: string, f: Family): Auth {
    v.(sessions := v.sessions[v.nextSession := SessionDoc(user, f, true)], nextSession := v.nextSession + 1)
  }

  function After(v: Auth, q: Request): Auth {
    match q
    case Login(user) =>
      WithSession(WithToken(v, user, v.nextFamily), user, v.nextFamily).(nextFamily := v.nextFamily + 1)
    case Refresh(c) =>
      if v.Unused(c.token)
      then WithToken(v.(tokens := v.tokens[c.token := v.tokens[c.token].(used := true)]), c.user, c.family)
      else v.(tokens := WithoutFamilies(v.tokens, {c.family}))
    case Revoke(ids) =>
      v.(sessions := Deactivated(v.sessions, ids), tokens := WithoutFamilies(v.tokens, FamiliesOf(v.sessions, ids)))
    case DeleteFamily(f) => v.(tokens := WithoutFamilies(v.tokens, {f}))
    case DeleteUser(user) => v.(tokens := map t | t in v.tokens && v.tokens[t].user != user :: v.tokens[t])
  }

  // ---------------------------------------------------------------- every request

  lemma FewerTokensStayOk(v: Auth, w: Auth)
    requires v.TokensOk() && w.issued == v.issued && w.nextToken == v.nextToken && w.nextFamily == v.nextFamily
    requires forall t :: t in w.tokens ==> t in v.tokens && w.tokens[t] == v.tokens[t]
    ensures w.TokensOk()
  {
    assert forall t :: w.Unused(t) ==> v.Unused(t);
  }

  /** A new token is fine if its family has no other unused token and is its user's own. */
  lemma NewTokenStaysOk(v: Auth, user: string, f: Family)
    requires v.TokensOk() && f < v.nextFamily
    requires forall c :: c in v.issued && c.family == f ==> c.user == user
    requires forall t :: v.Unused(t) ==> v.tokens[t].family != f
    ensures WithToken(v, user, f).TokensOk()
  {
    var w := WithToken(v, user, f);
    assert forall t :: w.Unused(t) ==> t == v.nextToken || v.Unused(t);
    forall t | t in w.tokens ensures Claims(t, w.tokens[t].family, w.tokens[t].user) in w.issued {
      assert t in v.tokens ==> Claims(t, v.tokens[t].family, v.tokens[t].user) in v.issued;
    }
  }

  lemma TokensStayOk(v: Auth, q: Request)
    requires v.TokensOk() && Possible(v, q)
    ensures After(v, q).TokensOk()
  {
    hide Auth.TokensOk;
    if q.Login? {
      var u := v.(nextFamily := v.nextFamily + 1);
      NextFamilyIsFree(v);
      NewTokenStaysOk(u, q.user, v.nextFamily);
      FewerTokensStayOk(WithToken(u, q.user, v.nextFamily), After(v, q));
    } else if q.Refresh? && v.Unused(q.claims.token) {
      var c := q.claims;
      var u := v.(tokens := v.tokens[c.token := v.tokens[c.token].(used := true)]);
      ConsumedStaysOk(v, c);
      NewTokenStaysOk(u, c.user, c.family);
    } else {
      FewerTokensStayOk(v, After(v, q));
    }
  }

  lemma NextFamilyIsFree(v: Auth)
    requires v.TokensOk()
    ensures v.(nextFamily := v.nextFamily + 1).TokensOk()
    ensures forall c :: c in v.issued ==> c.family != v.nextFamily
    ensures forall t :: v.Unused(t) ==> v.tokens[t].family != v.nextFamily
  {
    assert forall t :: v.(nextFamily := v.nextFamily + 1).Unused(t) == v.Unused(t);
  }

  /** Consuming the unused token of a family leaves none, so that there is room for a new one. */
  lemma ConsumedStaysOk(v: Auth, c: Claims)
    requires v.TokensOk() && c in v.issued && v.Unused(c.token)
    ensures var u := v.(tokens := v.tokens[c.token := v.tokens[c.token].(used := true)]);
            && u.TokensOk() && c.family < u.nextFamily
            && (forall d :: d in u.issued && d.family == c.family ==> d.user == c.user)
            && (forall t :: u.Unused(t) ==> u.tokens[t].family != c.family)
  {
    var u := v.(tokens := v.tokens[c.token := v.tokens[c.token].(used := true)]);
    ClaimsOfToken(v, c);
    assert forall t :: u.Unused(t) ==> v.Unused(t) && t != c.token;
  }

  lemma SessionsStayOk(v: Auth, q: Request)
    requires v.SessionsOk()
    ensures After(v, q).SessionsOk()
  {
  }

  /** A session stays active unless it is revoked. */
  lemma ActiveSessionStays(v: Auth, q: Request, f: Family, user: string)
    requires v.SessionsOk() && v.HasActiveSession(f, user)
    requires q.Revoke? ==> f !in FamiliesOf(v.sessions, q.ids)
    ensures After(v, q).HasActiveSession(f, user)
  {
    var s :| s in v.sessions && v.sessions[s] == SessionDoc(user, f, true);
    assert s in After(v, q).sessions;
  }

  /** Every request keeps the tokens and the sessions in step. */
  lemma RequestKeepsValid(v: Auth, q: Request)
    requires v.Valid() && Possible(v, q)
    ensures After(v, q).Valid()
  {
    hide Auth.TokensOk, Auth.SessionsOk;
    var w := After(v, q);
    TokensStayOk(v, q);
    SessionsStayOk(v, q);
    forall t | w.Unused(t) ensures w.HasActiveSession(w.tokens[t].family, w.tokens[t].user) {
      if q.Login? && t == v.nextToken {
        assert w.sessions[v.nextSession] == SessionDoc(q.user, v.nextFamily, true);
      } else if q.Refresh? && v.Unused(q.claims.token) && t == v.nextToken {
        ClaimsOfToken(v, q.claims);
        ActiveSessionStays(v, q, q.claims.family, q.claims.user);
      } else {
        assert v.Unused(t) && w.tokens[t] == v.tokens[t];
        ActiveSessionStays(v, q, v.tokens[t].family, v.tokens[t].user);
      }
    }
  }

  lemma ClaimsOfToken(v: Auth, c: Claims)
    requires v.TokensOk() && c in v.issued && c.token in v.tokens
    ensures v.tokens[c.token].family == c.family && v.tokens[c.token].user == c.user
  {
    assert Claims(c.token, v.tokens[c.token].family, v.tokens[c.token].user) == c;
  }

  /** A dead family stays dead, and a refresh in it is refused. */
  lemma DeadStaysDead(v: Auth, q: Request, f: Family)
    requires v.TokensOk() && Possible(v, q) && v.Dead(f)
    ensures After(v, q).Dead(f)
    ensures q.Refresh? && q.claims.family == f ==> !v.Unused(q.claims.token)
  {
    var w := After(v, q);
    if q.Refresh? && v.Unused(q.claims.token) {
      ClaimsOfToken(v, q.claims);
    }
    forall t | w.Unused(t) ensures w.tokens[t].family != f {
      assert v.Unused(t) ==> v.tokens[t].family != f;
    }
  }

  /** What kills a family: presenting a token that is not unused, revoking its session,
      deleting it, and deleting the tokens of its user. */
  lemma WhatKills(v: Auth, q: Request, f: Family)
    requires v.Valid() && Possible(v, q) && f < v.nextFamily
    ensures q.Refresh? && q.claims.family == f && !v.Unused(q.claims.token) ==> After(v, q).Dead(f)
    ensures q.Revoke? && f in FamiliesOf(v.sessions, q.ids) ==> After(v, q).Dead(f)
    ensures q == DeleteFamily(f) ==> After(v, q).Dead(f)
    ensures (exists c :: c in v.issued && c.family == f && q == DeleteUser(c.user)) ==> After(v, q).Dead(f)
  {
    if c :| c in v.issued && c.family == f && q == DeleteUser(c.user) {
      forall t | After(v, q).Unused(t) ensures v.tokens[t].family != f {
        assert Claims(t, v.tokens[t].family, v.tokens[t].user) in v.issued;
      }
    }
  }

  // ---------------------------------------------------------------- every run of requests

  function AfterAll(v: Auth, qs: seq<Request>): Auth
    decreases |qs|
  {
    if qs == [] then v else After(AfterAll(v, qs[..|qs| - 1]), qs[|qs| - 1])
  }

  ghost predicate AllPossible(v: Auth, qs: seq<Request>) {
    forall i :: 0 <= i < |qs| ==> Possible(AfterAll(v, qs[..i]), qs[i])
  }

  lemma PossiblePrefix(v: Auth, qs: seq<Request>, n: nat)
    requires AllPossible(v, qs) && n <= |qs|
    ensures AllPossible(v, qs[..n])
  {
    forall i | 0 <= i < n ensures Possible(AfterAll(v, qs[..n][..i]), qs[..n][i]) {
      assert qs[..n][..i] == qs[..i];
    }
  }

  /** After any run, every unused token's family has an active session of its user. */
  lemma {:induction false} RunKeepsValid(v: Auth, qs: seq<Request>)
    requires v.Valid() && AllPossible(v, qs)
    ensures AfterAll(v, qs).Valid()
    decreases |qs|
  {
    hide After, Auth.Valid;
    if qs != [] {
      var n := |qs| - 1;
      PossiblePrefix(v, qs, n);
      RunKeepsValid(v, qs[..n]);
      RequestKeepsValid(AfterAll(v, qs[..n]), qs[n]);
    }
  }

  /** Once a family is dead - after a replay, a logout, or the revocation of its session - no
      refresh in it succeeds in any run that follows. */
  lemma {:induction false} DeadForever(v: Auth, qs: seq<Request>, f: Family)
    requires v.Valid() && v.Dead(f) && AllPossible(v, qs)
    ensures AfterAll(v, qs).Dead(f)
    ensures qs != [] ==> var last := qs[|qs| - 1];
                         last.Refresh? && last.claims.family == f ==>
                           !AfterAll(v, qs[..|qs| - 1]).Unused(last.claims.token)
    decreases |qs|
  {
    hide After, Auth.Dead, Auth.TokensOk, Auth.SessionsOk;
    if qs != [] {
      var n := |qs| - 1;
      PossiblePrefix(v, qs, n);
      RunKeepsValid(v, qs[..n]);
      DeadForever(v, qs[..n], f);
      DeadStaysDead(AfterAll(v, qs[..n]), qs[n], f);
    }
  }

  // ---------------------------------------------------------------- the requests themselves

  /** The sessions that `revoke_all_user_sessions` selects. */
  function Hit(sessions: Sessions, user: string, exclude: Option<SessionId>): set<SessionId> {
    set s | s in sessions && sessions[s].user == user && sessions[s].active && exclude != Some(s)
  }

  /** With its active sessions, a user loses every unused token. */
  lemma NoSessionNoToken(v: Auth, user: string)
    requires v.Valid()
    ensures forall t :: After(v, Revoke(Hit(v.sessions, user, None))).Unused(t) ==> v.tokens[t].user != user
  {
    var w := After(v, Revoke(Hit(v.sessions, user, None)));
    forall t | w.Unused(t) ensures v.tokens[t].user != user {
      assert v.Unused(t);
      var s :| s in v.sessions && v.sessions[s] == SessionDoc(v.tokens[t].user, v.tokens[t].family, true);
      assert v.tokens[t].user == user ==> s in Hit(v.sessions, user, None);
    }
  }

  lemma {:induction false} FewerKeys<K, V>(a: map<K, V>, b: map<K, V>)
    requires a.Keys <= b.Keys
    ensures |a| <= |b|
    decreases |a|
  {
    if k :| k in a {
      assert (a - {k}).Keys == a.Keys - {k} && (b - {k}).Keys == b.Keys - {k};
      FewerKeys(a - {k}, b - {k});
    }
  }

  class AuthStore {
    var tokens: Tokens
    var sessions: Sessions
    var nextToken: Token
    var nextFamily: Family
    var nextSession: SessionId
    ghost var issued: set<Claims>

    ghost function View(): Auth
      reads this
    {
      Auth(tokens, sessions, nextToken, nextFamily, nextSession, issued)
    }

    constructor ()
      ensures View() == EMPTY
    {
      tokens, sessions := map[], map[];
      nextToken, nextFamily, nextSession := 0, 0, 0;
      issued := {};
    }

    /** A fresh token, in a fresh family or in the one it continues. */
    method CreateRefreshToken(user: string, family: Option<Family>) returns (c: Claims)
      modifies this`tokens, this`nextToken, this`nextFamily, this`issued
      ensures c == Claims(old(nextToken), family.GetOr(old(nextFamily)), user)
      ensures View() == WithToken(old(View()), user, c.family)
                          .(nextFamily := if family.None? then old(nextFamily) + 1 else old(nextFamily))
      ensures tokens == old(tokens)[old(nextToken) := TokenDoc(c.family, user, false)]
      ensures nextToken == old(nextToken) + 1 && issued == old(issued) + {c}
    {
      var t := nextToken;
      nextToken := nextToken + 1;
      var f := nextFamily;
      if family.Some? {
        f := family.value;
      } else {
        nextFamily := nextFamily + 1;
      }
      tokens := tokens[t := TokenDoc(f, user, false)];
      c := Claims(t, f, user);
      issued := issued + {c};
    }

    method CreateSession(user: string, family: Family) returns (s: SessionId)
      modifies this`sessions, this`nextSession
      ensures s == old(nextSession) && View() == WithSession(old(View()), user, family)
      ensures sessions == old(sessions)[s := SessionDoc(user, family, true)] && nextSession == s + 1
    {
      s := nextSession;
      nextSession := nextSession + 1;
      sessions := sessions[s := SessionDoc(user, family, true)];
    }

    /** A new family with one unused token and one active session. */
    method LogIn(user: string) returns (c: Claims, s: SessionId)
      modifies this
      ensures c == Claims(old(nextToken), old(nextFamily), user) && s == old(nextSession)
      ensures View() == After(old(View()), Login(user))
      ensures tokens == old(tokens)[c.token := TokenDoc(c.family, user, false)]
      ensures sessions == old(sessions)[s := SessionDoc(user, c.family, true)]
    {
      c := CreateRefreshToken(user, None);
      s := CreateSession(user, c.family);
    }

    method RevokeFamily(f: Family) returns (count: nat)
      modifies this`tokens
      ensures View() == After(old(View()), DeleteFamily(f))
      ensures forall t :: t in tokens <==> t in old(tokens) && old(tokens)[t].family != f
      ensures forall t :: t in tokens ==> tokens[t] == old(tokens)[t]
      ensures count == |old(tokens)| - |tokens|
    {
      var kept := WithoutFamilies(tokens, {f});
      FewerKeys(kept, tokens);
      count := |tokens| - |kept|;
      tokens := kept;
    }

    /** `rotate_refresh_token`; `None` stands for a token that does not decode, and for the
        ValueError.  The new access token carries the user and the session, which is found by
        the family: in a store whose tokens and sessions are in step there always is one. */
    method Rotate(token: Option<Claims>) returns (r: Option<(Claims, Access)>)
      modifies this
      ensures r.Some? <==> token.Some? && old(View()).Unused(token.value.token)
      ensures r.Some? ==>
                var c, access := token.value, r.value.1;
                && r.value.0 == Claims(old(nextToken), c.family, c.user) && access.user == c.user
                && (access.session.Some? ==>
                      access.session.value in sessions && sessions[access.session.value].active
                      && sessions[access.session.value].family == c.family)
                && (access.session.None? ==>
                      forall s :: s in sessions && sessions[s].active ==> sessions[s].family != c.family)
                && (old(View()).Valid() && c in old(issued) ==> access.session.Some?)
      ensures View() == if token.None? then old(View()) else After(old(View()), Refresh(token.value))
      ensures sessions == old(sessions)
      ensures r.Some? ==> var c := token.value;
                          tokens == old(tokens)[c.token := old(tokens)[c.token].(used := true)]
                                    [old(nextToken) := TokenDoc(c.family, c.user, false)]
      ensures r.None? && token.Some? ==>
                && (forall t :: t in tokens <==> t in old(tokens) && old(tokens)[t].family != token.value.family)
                && forall t :: t in tokens ==> tokens[t] == old(tokens)[t]
    {
      if token.None? { return None; }
      var c := token.value;
      if c.token in tokens && !tokens[c.token].used {
        tokens := tokens[c.token := tokens[c.token].(used := true)];
        var session := FindActiveSessionByFamily(c.family);
        if old(View()).Valid() && c in issued { SessionOfUnused(old(View()), c); }
        var d := CreateRefreshToken(c.user, Some(c.family));
        return Some((d, Access(c.user, session)));
      }
      var _ := RevokeFamily(c.family);
      return None;
    }

    method FindActiveSessionByFamily(f: Family) returns (found: Option<SessionId>)
      ensures found.Some? ==>
                found.value in sessions && sessions[found.value].active && sessions[found.value].family == f
      ensures found.None? ==> forall s :: s in sessions && sessions[s].active ==> sessions[s].family != f
    {
      found := None;
      var keys := sessions.Keys;
      while keys != {}
        invariant keys <= sessions.Keys
        invariant forall s :: s in sessions && s !in keys && sessions[s].active ==> sessions[s].family != f
        decreases keys
      {
        var s :| s in keys;
        if sessions[s].active && sessions[s].family == f { return Some(s); }
        keys := keys - {s};
      }
    }

    /** Revokes an active session, and its family with it. */
    method RevokeSession(s: SessionId) returns (ok: bool)
      modifies this`sessions, this`tokens
      ensures ok <==> s in old(sessions) && old(sessions)[s].active
      ensures View() == if ok then After(old(View()), Revoke({s})) else old(View())
      ensures ok ==>
                && sessions == old(sessions)[s := old(sessions)[s].(active := false)]
                && (forall t :: t in tokens <==> t in old(tokens) && old(tokens)[t].family != old(sessions)[s].family)
                && forall t :: t in tokens ==> tokens[t] == old(tokens)[t]
    {
      if s !in sessions || !sessions[s].active { return false; }
      var family := sessions[s].family;
      assert FamiliesOf(sessions, {s}) == {family};
      ghost var before := sessions;
      sessions := sessions[s := sessions[s].(active := false)];
      assert sessions == Deactivated(before, {s});
      var _ := RevokeFamily(family);
      return true;
    }

    /** `logout`: the active session of the token's family, if there is one, and the family. */
    method LogOut(token: Option<Claims>) returns (ghost found: Option<SessionId>)
      modifies this`sessions, this`tokens
      ensures token.None? ==> View() == old(View())
      ensures token.Some? ==> View() == AfterLogout(old(View()), token.value.family, found)
      ensures token.Some? && token.value.family < nextFamily ==>
                View().Dead(token.value.family)
      ensures token.Some? && old(View()).SessionsOk() ==>
                forall s :: s in sessions && sessions[s].family == token.value.family ==> !sessions[s].active
      ensures token.Some? ==>
                && (forall t :: t in tokens <==> t in old(tokens) && old(tokens)[t].family != token.value.family)
                && (forall t :: t in tokens ==> tokens[t] == old(tokens)[t])
                && sessions.Keys == old(sessions).Keys
                && forall s :: s in sessions && old(sessions)[s].family != token.value.family ==>
                     sessions[s] == old(sessions)[s]
    {
      found := None;
      if token.None? { return; }
      var f := token.value.family;
      var session := FindActiveSessionByFamily(f);
      found := session;
      if session.Some? {
        var _ := RevokeSession(session.value);
      }
      var _ := RevokeFamily(f);
    }

    /** Revokes the active sessions of a user, all or all but one, with their families.  Every
        other session and every other family is left as it was. */
    method RevokeAllUserSessions(user: string, exclude: Option<SessionId>) returns (count: nat)
      modifies this`sessions, this`tokens
      ensures View() == After(old(View()), Revoke(Hit(old(sessions), user, exclude)))
      ensures count == |Hit(old(sessions), user, exclude)|
      ensures sessions.Keys == old(sessions).Keys
      ensures forall s :: s in sessions ==>
                var was := old(sessions)[s];
                sessions[s] == if was.user == user && exclude != Some(s) then was.(active := false) else was
      ensures forall t :: t in tokens ==> t in old(tokens) && tokens[t] == old(tokens)[t]
      ensures forall t :: t in old(tokens) ==>
                (t !in tokens
                 <==> exists s :: s in old(sessions) && old(sessions)[s].user == user && old(sessions)[s].active
                                  && exclude != Some(s) && old(sessions)[s].family == old(tokens)[t].family)
    {
      var sessionIds: set<SessionId> := {};
      var familyIds: set<Family> := {};
      var keys := sessions.Keys;
      while keys != {}
        invariant keys <= sessions.Keys
        invariant sessionIds == set s | s in Hit(sessions, user, exclude) && s !in keys
        invariant familyIds == FamiliesOf(sessions, sessionIds)
        decreases keys
      {
        var s :| s in keys;
        keys := keys - {s};
        if sessions[s].user == user && sessions[s].active && exclude != Some(s) {
          sessionIds := sessionIds + {s};
          familyIds := familyIds + {sessions[s].family};
        }
      }
      assert sessionIds == Hit(sessions, user, exclude);
      if sessionIds == {} {
        NothingToRevoke(View());
        return 0;
      }
      sessions := Deactivated(sessions, sessionIds);
      tokens := WithoutFamilies(tokens, familyIds);
      return |sessionIds|;
    }

    method RevokeUserTokens(user: string) returns (count: nat)
      modifies this`tokens
      ensures View() == After(old(View()), DeleteUser(user))
      ensures forall t :: t in tokens <==> t in old(tokens) && old(tokens)[t].user != user
      ensures forall t :: t in tokens ==> tokens[t] == old(tokens)[t]
      ensures count == |old(tokens)| - |tokens|
    {
      var kept := map t | t in tokens && tokens[t].user != user :: tokens[t];
      FewerKeys(kept, tokens);
      count := |tokens| - |kept|;
      tokens := kept;
    }
  }

  lemma SessionOfUnused(v: Auth, c: Claims)
    requires v.Valid() && c in v.issued && v.Unused(c.token)
    ensures v.HasActiveSession(c.family, c.user)
  {
    ClaimsOfToken(v, c);
  }

  function AfterLogout(v: Auth, f: Family, found: Option<SessionId>): Auth {
    After(if found.Some? then After(v, Revoke({found.value})) else v, DeleteFamily(f))
  }

  lemma NothingToRevoke(v: Auth)
    ensures After(v, Revoke({})) == v
  {
    assert Deactivated(v.sessions, {}) == v.sessions;
    assert FamiliesOf(v.sessions, {}) == {};
    assert WithoutFamilies(v.tokens, {}) == v.tokens;
  }
}
