/**
 Looking up credentials: the search over realm, domain and user name, its chain of
 fallbacks, the removal of expired entries, and adding an entry.
 */
module Credentials {
  import opened Lists
  import opened CText

  /** `otherSecret` stands for a TLS key, a path to one, or a refresh token. */
  datatype AuthInfo = AuthInfo(
    username: Option<string>, realm: Option<string>, domain: Option<string>, algorithm: Option<string>,
    password: Option<string>, ha1: Option<string>, accessToken: bool, otherSecret: bool, expires: int)

  /** What a request asks for; absent criteria are null pointers. */
  datatype Query = Query(
    username: Option<string>, realm: Option<string>, domain: Option<string>, algorithm: Option<string>)

  // ---------------------------------------------------------------- comparisons

  function LowerChar(c: char): char {
    if 'A' <= c <= 'Z' then (c as int + 32) as char else c
  }

  function Lower(s: string): string {
    seq(|s|, i requires 0 <= i < |s| => LowerChar(s[i]))
  }

  predicate SameIgnoringCase(a: string, b: string) {
    Lower(a) == Lower(b)
  }

  function Unquote(s: string): string {
    var t := if s != "" && s[0] == '"' then s[1..] else s;
    t[..IndexOf(t, '"')]
  }

  /** Copied into a buffer of 128 characters. */
  function Clip(s: string): string {
    if |s| > 127 then s[..127] else s
  }

  predicate RealmMatch(a: string, b: string) {
    a == b || Unquote(Clip(a)) == Unquote(Clip(b))
  }

  /** check_algorithm_compatibility */
  predicate Compatible(ai: AuthInfo, algorithm: Option<string>) {
    || algorithm.None?
    || (ai.password.Some? && ai.algorithm.None?)
    || (ai.password.None? && ai.ha1.Some? && ai.algorithm.None? && SameIgnoringCase(algorithm.value, "MD5"))
    || (ai.algorithm.Some? && SameIgnoringCase(algorithm.value, ai.algorithm.value))
  }

  lemma LowerTwice(s: string, t: string)
    ensures SameIgnoringCase(s, s)
    ensures SameIgnoringCase(s, t) == SameIgnoringCase(t, s)
    ensures SameIgnoringCase(s, t) ==> |s| == |t|
    ensures SameIgnoringCase(s, Lower(s))
  {
    assert Lower(Lower(s)) == Lower(s);
    assert |Lower(s)| == |s| && |Lower(t)| == |t|;
  }

  lemma Md5InAnyCase()
    ensures SameIgnoringCase("MD5", "md5") && !SameIgnoringCase("MD5", "SHA-256")
  {
    assert Lower("MD5") == "md5" && Lower("md5") == "md5";
    assert |Lower("SHA-256")| == 7;
  }

  /** What an entry can answer: any algorithm with a password and no algorithm of its own,
      MD5 only with nothing but an HA1, else its own algorithm, in any case. */
  lemma CompatibleExactly(ai: AuthInfo, algorithm: string)
    ensures ai.algorithm.Some? ==>
              (Compatible(ai, Some(algorithm)) <==> SameIgnoringCase(algorithm, ai.algorithm.value))
    ensures ai.algorithm.None? && ai.password.Some? ==> Compatible(ai, Some(algorithm))
    ensures ai.algorithm.None? && ai.password.None? && ai.ha1.Some? ==>
              (Compatible(ai, Some(algorithm)) <==> SameIgnoringCase(algorithm, "MD5"))
    ensures ai.algorithm.None? && ai.password.None? && ai.ha1.None? ==> !Compatible(ai, Some(algorithm))
    ensures Compatible(ai, None)
  {
  }

  lemma UnquoteOf(r: string, post: string)
    requires '"' !in r
    ensures Unquote(r) == r && Unquote("\"" + r + "\"" + post) == r && Unquote("\"" + r) == r
  {
    FirstIndex(r, '"', post);
    assert ("\"" + r + "\"" + post)[1..] == r + ['"'] + post;
    assert ("\"" + r)[1..] == r;
  }

  /** Quotes around a realm do not matter, and nothing else is forgiven: realms without
      quotes match exactly when they agree in what fits the buffer. */
  lemma RealmMatchExactly(a: string, b: string)
    ensures RealmMatch(a, b) == RealmMatch(b, a) && RealmMatch(a, a)
    ensures '"' !in a && '"' !in b && |a| <= 127 && |b| <= 127 ==> (RealmMatch(a, b) <==> a == b)
    ensures '"' !in a && '"' !in b && |a| >= 127 && |b| >= 127 ==> (RealmMatch(a, b) <==> a[..127] == b[..127])
    ensures '"' !in a && |a| <= 125 ==> RealmMatch("\"" + a + "\"", a)
    ensures '"' !in a && '"' !in b && |a| <= 125 && |b| <= 125 ==> (RealmMatch("\"" + a + "\"", b) <==> a == b)
  {
    hide Unquote;
    var quoted := "\"" + a + "\"";
    assert quoted + "" == quoted;
    if '"' !in a {
      UnquoteOf(a, "");
      assert '"' !in Clip(a);
      UnquoteOf(Clip(a), "");
    }
    if '"' !in b {
      UnquoteOf(b, "");
      assert '"' !in Clip(b);
      UnquoteOf(Clip(b), "");
    }
    assert quoted[0] == '"';
  }

  predicate RealmMatches(ai: AuthInfo, realm: Option<string>) {
    realm.Some? && ai.realm.Some? && RealmMatch(realm.value, ai.realm.value)
  }

  predicate DomainMatches(ai: AuthInfo, domain: Option<string>) {
    domain.Some? && ai.domain == domain
  }

  /** An entry for the user and the algorithm asked for. */
  predicate Candidate(ai: AuthInfo, q: Query) {
    (q.username.None? || ai.username == q.username) && Compatible(ai, q.algorithm)
  }

  /** The entry answers the query. An HA1 answers without a realm only if told to. */
  predicate Answers(ai: AuthInfo, q: Query, ignoreRealm: bool) {
    && Candidate(ai, q)
    && (q.realm.Some? ==> RealmMatches(ai, q.realm))
    && (q.domain.Some? ==> DomainMatches(ai, q.domain))
    && (q.realm.None? ==> ai.ha1.None? || ignoreRealm)
  }

  // ---------------------------------------------------------------- one search

  /** The first entry that answers, or |l|. */
  function First(l: seq<AuthInfo>, q: Query, ignoreRealm: bool): (i: nat)
    ensures i <= |l|
    ensures i < |l| ==> Answers(l[i], q, ignoreRealm)
    ensures forall j :: 0 <= j < i ==> !Answers(l[j], q, ignoreRealm)
  {
    if l == [] || Answers(l[0], q, ignoreRealm) then 0 else 1 + First(l[1..], q, ignoreRealm)
  }

  predicate OnlyAnswer(l: seq<AuthInfo>, q: Query, ignoreRealm: bool, i: nat) {
    i < |l| && Answers(l[i], q, ignoreRealm) && forall j :: 0 <= j < |l| && Answers(l[j], q, ignoreRealm) ==> j == i
  }

  predicate Blank(q: Query) {
    q == Query(None, None, None, None)
  }

  /** find_auth_info: with a realm alone the answer must be unique; otherwise it is the
      first one. A query without criteria has no answer. */
  function Find(l: seq<AuthInfo>, q: Query, ignoreRealm: bool): (r: Option<nat>)
    ensures r.Some? ==> r.value < |l| && Answers(l[r.value], q, ignoreRealm)
  {
    var i := First(l, q, ignoreRealm);
    if Blank(q) || i == |l| then None
    else if q.realm.Some? && q.domain.None? && !OnlyAnswer(l, q, ignoreRealm, i) then None
    else Some(i)
  }

  method FindAuthInfo(l: seq<AuthInfo>, q: Query, ignoreRealm: bool) returns (ret: Option<nat>)
    ensures ret == Find(l, q, ignoreRealm)
  {
    ret := None;
    if q.username.None? && q.realm.None? && q.domain.None? && q.algorithm.None? {
      return;
    }
    for i := 0 to |l|
      invariant ret == if First(l, q, ignoreRealm) < i then Some(First(l, q, ignoreRealm)) else None
      invariant ret.Some? ==> q.realm.Some? && q.domain.None?
      invariant forall j :: 0 <= j < i && Answers(l[j], q, ignoreRealm) ==> ret == Some(j)
    {
      var ai := l[i];
      if q.username.None? || ai.username == q.username {
        if !Compatible(ai, q.algorithm) {
          continue;
        }
        if q.realm.Some? && q.domain.Some? {
          if RealmMatches(ai, q.realm) && DomainMatches(ai, q.domain) {
            return Some(i);
          }
        } else if q.realm.Some? {
          if RealmMatches(ai, q.realm) {
            if ret.Some? {
              return None;
            }
            ret := Some(i);
          }
        } else if q.domain.Some? && DomainMatches(ai, q.domain) && (ai.ha1.None? || ignoreRealm) {
          return Some(i);
        } else if q.domain.None? && (ai.ha1.None? || ignoreRealm) {
          return Some(i);
        }
      }
    }
  }

  // ---------------------------------------------------------------- the chain

  /** The entry the chain of searches settles on, before its expiry is looked at. */
  function Choose(l: seq<AuthInfo>, q: Query, ignoreRealm: bool): (r: Option<nat>)
    ensures r.Some? ==> r.value < |l|
  {
    var byRealm := ByRealmSearch(l, q);
    var byBoth := if byRealm.None? && q.realm.Some? && q.domain.Some? then Find(l, q, false) else byRealm;
    var byDomain := if byBoth.None? && q.domain.Some? then Find(l, q.(realm := None), ignoreRealm) else byBoth;
    if byDomain.None? then Find(l, q.(realm := None, domain := None), ignoreRealm) else byDomain
  }

  predicate Expired(ai: AuthInfo, now: int) {
    ai.expires != 0 && ai.expires <= now
  }

  /** An expiry of 0 is none; any other is over from its very second on. */
  lemma ExpiresOnTime(ai: AuthInfo, now: int, later: int)
    ensures ai.expires == 0 ==> !Expired(ai, now)
    ensures ai.expires == now && now != 0 ==> Expired(ai, now)
    ensures ai.expires == now + 1 ==> !Expired(ai, now)
    ensures Expired(ai, now) && now <= later ==> Expired(ai, later)
  {
  }

  /** A unique match of the realm beats every fallback over domain or user name. */
  lemma UniqueRealmWins(l: seq<AuthInfo>, q: Query, ignoreRealm: bool, i: nat)
    requires q.realm.Some? && i < |l| && Candidate(l[i], q) && RealmMatches(l[i], q.realm)
    requires forall j :: 0 <= j < |l| && Candidate(l[j], q) && RealmMatches(l[j], q.realm) ==> j == i
    ensures Choose(l, q, ignoreRealm) == Some(i)
  {
    var byRealm := q.(domain := None);
    assert forall j :: 0 <= j < |l| ==>
      (Answers(l[j], byRealm, false) <==> Candidate(l[j], q) && RealmMatches(l[j], q.realm));
    assert First(l, byRealm, false) == i;
  }

  // ------------------------------------------------- what is chosen, entry by entry

  type Criterion = AuthInfo -> bool

  function ByRealm(q: Query): Criterion {
    (ai: AuthInfo) => Candidate(ai, q) && RealmMatches(ai, q.realm)
  }

  function ByRealmAndDomain(q: Query): Criterion {
    (ai: AuthInfo) => Candidate(ai, q) && RealmMatches(ai, q.realm) && DomainMatches(ai, q.domain)
  }

  function ByDomain(q: Query, ignoreRealm: bool): Criterion {
    (ai: AuthInfo) => Candidate(ai, q) && DomainMatches(ai, q.domain) && (ai.ha1.None? || ignoreRealm)
  }

  function ByUser(q: Query, ignoreRealm: bool): Criterion {
    (ai: AuthInfo) => Candidate(ai, q) && (ai.ha1.None? || ignoreRealm)
  }

  predicate IsFirst(l: seq<AuthInfo>, c: Criterion, i: nat) {
    i < |l| && c(l[i]) && forall j :: 0 <= j < i ==> !c(l[j])
  }

  predicate IsSole(l: seq<AuthInfo>, c: Criterion, i: nat) {
    i < |l| && c(l[i]) && forall j :: 0 <= j < |l| && c(l[j]) ==> j == i
  }

  predicate Several(l: seq<AuthInfo>, c: Criterion) {
    exists i, j :: 0 <= i < j < |l| && c(l[i]) && c(l[j])
  }

  predicate NoneOf(l: seq<AuthInfo>, c: Criterion) {
    forall j :: 0 <= j < |l| ==> !c(l[j])
  }

  /** Realm alone, when it tells the entries apart; else the first of the next criterion
      that some entry meets. The last one needs a user or an algorithm to look for. */
  ghost predicate ChosenIs(l: seq<AuthInfo>, q: Query, ignoreRealm: bool, i: nat) {
    || IsSole(l, ByRealm(q), i)
    || ((NoneOf(l, ByRealm(q)) || Several(l, ByRealm(q)))
        && (|| IsFirst(l, ByRealmAndDomain(q), i)
            || (NoneOf(l, ByRealmAndDomain(q)) && IsFirst(l, ByDomain(q, ignoreRealm), i))
            || (NoneOf(l, ByRealmAndDomain(q)) && NoneOf(l, ByDomain(q, ignoreRealm))
                && (q.username.Some? || q.algorithm.Some?) && IsFirst(l, ByUser(q, ignoreRealm), i))))
  }

  /** One search of the chain, for a criterion that says the same as the query. */
  lemma FindIsFirst(l: seq<AuthInfo>, q: Query, ignoreRealm: bool, c: Criterion)
    requires !Blank(q) && (q.realm.None? || q.domain.Some?)
    requires forall j :: 0 <= j < |l| ==> (Answers(l[j], q, ignoreRealm) <==> c(l[j]))
    ensures match Find(l, q, ignoreRealm)
            case None => NoneOf(l, c)
            case Some(i) => IsFirst(l, c, i) && !NoneOf(l, c)
  {
    hide Answers;
  }

  lemma FindIsSole(l: seq<AuthInfo>, q: Query, c: Criterion)
    requires q.realm.Some? && q.domain.None?
    requires forall j :: 0 <= j < |l| ==> (Answers(l[j], q, false) <==> c(l[j]))
    ensures match Find(l, q, false)
            case None => NoneOf(l, c) || Several(l, c)
            case Some(i) => IsSole(l, c, i) && !NoneOf(l, c) && !Several(l, c)
  {
    hide Answers;
    var i := First(l, q, false);
    if i < |l| && !OnlyAnswer(l, q, false, i) {
      var j :| 0 <= j < |l| && Answers(l[j], q, false) && j != i;
      assert c(l[i]) && c(l[j]);
      assert Several(l, c);
    }
  }

  lemma OneFirst(l: seq<AuthInfo>, c: Criterion, i: nat, j: nat)
    ensures IsFirst(l, c, i) && IsFirst(l, c, j) ==> i == j
    ensures IsSole(l, c, i) && IsSole(l, c, j) ==> i == j
    ensures IsFirst(l, c, i) || IsSole(l, c, i) ==> !NoneOf(l, c)
    ensures IsSole(l, c, i) ==> !Several(l, c)
  {
  }

  /** The four searches say what the four criteria say. */
  lemma ByRealmIs(l: seq<AuthInfo>, q: Query)
    ensures match ByRealmSearch(l, q)
            case None => NoneOf(l, ByRealm(q)) || Several(l, ByRealm(q))
            case Some(i) => IsSole(l, ByRealm(q), i)
  {
    if q.realm.Some? {
      hide Compatible, RealmMatch, Find, NoneOf, Several, IsSole;
      assert forall j :: 0 <= j < |l| ==> (Answers(l[j], q.(domain := None), false) <==> ByRealm(q)(l[j]));
      FindIsSole(l, q.(domain := None), ByRealm(q));
    }
  }

  function ByRealmSearch(l: seq<AuthInfo>, q: Query): (r: Option<nat>)
    ensures r.Some? ==> r.value < |l|
  {
    if q.realm.Some? then Find(l, q.(domain := None), false) else None
  }

  lemma ByBothIs(l: seq<AuthInfo>, q: Query)
    ensures match if q.realm.Some? && q.domain.Some? then Find(l, q, false) else None
            case None => NoneOf(l, ByRealmAndDomain(q))
            case Some(i) => IsFirst(l, ByRealmAndDomain(q), i)
  {
    if q.realm.Some? && q.domain.Some? {
      hide Compatible, RealmMatch, Find, NoneOf, IsFirst;
      assert forall j :: 0 <= j < |l| ==> (Answers(l[j], q, false) <==> ByRealmAndDomain(q)(l[j]));
      FindIsFirst(l, q, false, ByRealmAndDomain(q));
    }
  }

  lemma ByDomainIs(l: seq<AuthInfo>, q: Query, ignoreRealm: bool)
    ensures match if q.domain.Some? then Find(l, q.(realm := None), ignoreRealm) else None
            case None => NoneOf(l, ByDomain(q, ignoreRealm))
            case Some(i) => IsFirst(l, ByDomain(q, ignoreRealm), i)
  {
    if q.domain.Some? {
      hide Compatible, RealmMatch, Find, NoneOf, IsFirst;
      var plain := q.(realm := None);
      assert forall j :: 0 <= j < |l| ==> (Answers(l[j], plain, ignoreRealm) <==> ByDomain(q, ignoreRealm)(l[j]));
      FindIsFirst(l, plain, ignoreRealm, ByDomain(q, ignoreRealm));
    }
  }

  lemma ByUserIs(l: seq<AuthInfo>, q: Query, ignoreRealm: bool)
    ensures match Find(l, q.(realm := None, domain := None), ignoreRealm)
            case None => NoneOf(l, ByUser(q, ignoreRealm)) || (q.username.None? && q.algorithm.None?)
            case Some(i) => IsFirst(l, ByUser(q, ignoreRealm), i) && (q.username.Some? || q.algorithm.Some?)
  {
    var plain := q.(realm := None, domain := None);
    if !Blank(plain) {
      hide Compatible, RealmMatch, Find, NoneOf, IsFirst;
      assert forall j :: 0 <= j < |l| ==> (Answers(l[j], plain, ignoreRealm) <==> ByUser(q, ignoreRealm)(l[j]));
      FindIsFirst(l, plain, ignoreRealm, ByUser(q, ignoreRealm));
    }
  }

  /** The chain of searches chooses exactly the entry that the criteria single out. */
  lemma ChosenExactly(l: seq<AuthInfo>, q: Query, ignoreRealm: bool, i: nat)
    ensures Choose(l, q, ignoreRealm) == Some(i) <==> ChosenIs(l, q, ignoreRealm, i)
  {
    hide Find, IsFirst, IsSole, NoneOf, Several;
    ByRealmIs(l, q);
    ByBothIs(l, q);
    ByDomainIs(l, q, ignoreRealm);
    ByUserIs(l, q, ignoreRealm);
    var r := Choose(l, q, ignoreRealm);
    var j := if r.Some? then r.value else i;
    forall c: Criterion
      ensures IsFirst(l, c, i) && IsFirst(l, c, j) ==> i == j
      ensures IsSole(l, c, i) && IsSole(l, c, j) ==> i == j
      ensures IsFirst(l, c, i) || IsSole(l, c, i) ==> !NoneOf(l, c)
      ensures IsFirst(l, c, j) || IsSole(l, c, j) ==> !NoneOf(l, c)
      ensures IsSole(l, c, i) || IsSole(l, c, j) ==> !Several(l, c)
    {
      OneFirst(l, c, i, j);
      OneFirst(l, c, j, i);
    }
  }

  /** When several entries match the realm, the first that also matches the domain is
      chosen, if there is one. */
  lemma RealmAndDomainNext(l: seq<AuthInfo>, q: Query, ignoreRealm: bool, i: nat)
    requires Several(l, ByRealm(q)) && IsFirst(l, ByRealmAndDomain(q), i)
    ensures Choose(l, q, ignoreRealm) == Some(i) && q.domain.Some? && l[i].domain == q.domain
  {
    hide Find, Choose;
    ChosenExactly(l, q, ignoreRealm, i);
  }

  /** Two accounts of one realm: the one of the domain asked for is chosen. */
  lemma TwoDomains(user: string, realm: string, password: string, now: int)
    ensures var e1 := AuthInfo(Some(user), Some(realm), Some("d1"), None, Some(password), None, false, false, 0);
            var e2 := e1.(domain := Some("d2"));
            && Choose([e1, e2], Query(Some(user), Some(realm), Some("d2"), None), false) == Some(1)
            && Choose([e1, e2], Query(Some(user), Some(realm), Some("d1"), None), false) == Some(0)
  {
    hide Find, Choose;
    var e1 := AuthInfo(Some(user), Some(realm), Some("d1"), None, Some(password), None, false, false, 0);
    var e2 := e1.(domain := Some("d2"));
    var l := [e1, e2];
    assert "d1" != "d2" by {
      assert "d1"[1] != "d2"[1];
    }
    var q1, q2 := Query(Some(user), Some(realm), Some("d1"), None), Query(Some(user), Some(realm), Some("d2"), None);
    assert ByRealm(q1)(l[0]) && ByRealm(q1)(l[1]) && ByRealm(q2)(l[0]) && ByRealm(q2)(l[1]);
    RealmAndDomainNext(l, q1, false, 0);
    RealmAndDomainNext(l, q2, false, 1);
  }

  /** An entry chosen without ignoring realms carries an HA1 only for the realm asked
      for; it is always one for the user and the algorithm. */
  lemma ChosenFits(l: seq<AuthInfo>, q: Query, ignoreRealm: bool)
    requires Choose(l, q, ignoreRealm).Some?
    ensures var ai := l[Choose(l, q, ignoreRealm).value];
            && (q.username.Some? ==> ai.username == q.username) && Compatible(ai, q.algorithm)
            && (ai.ha1.Some? && !ignoreRealm ==>
                  q.realm.Some? && ai.realm.Some? && RealmMatch(q.realm.value, ai.realm.value))
  {
    hide First, Compatible, RealmMatch;
  }

  /** When nothing is chosen, no candidate was overlooked: each carries an HA1 that
      realms are not ignored for, and none matches both the realm and the domain. */
  lemma NothingChosen(l: seq<AuthInfo>, q: Query, ignoreRealm: bool, i: nat)
    requires Choose(l, q, ignoreRealm).None? && i < |l| && Candidate(l[i], q)
    requires q.username.Some? || q.algorithm.Some?
    ensures l[i].ha1.Some? && !ignoreRealm
    ensures q.realm.Some? && q.domain.Some? ==> !(RealmMatches(l[i], q.realm) && DomainMatches(l[i], q.domain))
  {
    var plain := q.(realm := None, domain := None);
    assert First(l, plain, ignoreRealm) == |l|;
    assert !Answers(l[i], plain, ignoreRealm);
    if q.realm.Some? && q.domain.Some? {
      assert First(l, q, false) == |l|;
      assert !Answers(l[i], q, false);
    }
  }

  // ---------------------------------------------------------------- the store

  /** Entries are told apart by user, realm, domain and kind. */
  predicate SameIdentity(a: AuthInfo, b: AuthInfo) {
    a.username == b.username && a.realm == b.realm && a.domain == b.domain && a.accessToken == b.accessToken
  }

  predicate Distinct(l: seq<AuthInfo>) {
    forall i, j :: 0 <= i < j < |l| ==> !SameIdentity(l[i], l[j])
  }

  predicate HasSecret(ai: AuthInfo) {
    ai.ha1.Some? || ai.password.Some? || ai.accessToken || ai.otherSecret
  }

  class AuthStore {
    var authInfo: seq<AuthInfo>

    constructor ()
      ensures authInfo == []
    {
      authInfo := [];
    }

    /** _linphone_core_find_auth_info: an expired choice is removed and not returned. */
    method Lookup(q: Query, ignoreRealm: bool, now: int) returns (r: Option<AuthInfo>)
      modifies this
      ensures var l := old(authInfo);
              match Choose(l, q, ignoreRealm)
              case None => r.None? && authInfo == l
              case Some(i) =>
                if Expired(l[i], now) then r.None? && authInfo == Without(l, i)
                else r == Some(l[i]) && authInfo == l
      ensures r.Some? ==>
                && (q.username.Some? ==> r.value.username == q.username) && Compatible(r.value, q.algorithm)
                && (r.value.expires == 0 || now < r.value.expires)
      ensures r.Some? && r.value.ha1.Some? && !ignoreRealm ==>
                q.realm.Some? && r.value.realm.Some? && RealmMatch(q.realm.value, r.value.realm.value)
      ensures old(Distinct(authInfo)) ==> Distinct(authInfo)
    {
      var ai: Option<nat> := None;
      if q.realm.Some? {
        ai := FindAuthInfo(authInfo, q.(domain := None), false);
        if ai.None? && q.domain.Some? {
          ai := FindAuthInfo(authInfo, q, false);
        }
      }
      if ai.None? && q.domain.Some? {
        ai := FindAuthInfo(authInfo, q.(realm := None), ignoreRealm);
      }
      if ai.None? {
        ai := FindAuthInfo(authInfo, q.(realm := None, domain := None), ignoreRealm);
      }
      assert ai == Choose(authInfo, q, ignoreRealm);
      hide Find, First, Choose, Compatible, RealmMatch, SameIdentity;
      r := None;
      if ai.Some? {
        ChosenFits(authInfo, q, ignoreRealm);
        if Expired(authInfo[ai.value], now) {
          WithoutIsDistinct(authInfo, ai.value);
          authInfo := Without(authInfo, ai.value);
        } else {
          r := Some(authInfo[ai.value]);
        }
      }
    }

    /** linphone_core_add_auth_info, as far as the list is concerned: an entry of the
        same identity is replaced, and the new one goes to the end. */
    method Add(info: AuthInfo)
      modifies this
      ensures authInfo == if info.ha1.Some? || info.password.Some? || info.accessToken || info.otherSecret
                          then Added(old(authInfo), info) else old(authInfo)
      ensures old(Distinct(authInfo)) ==> Distinct(authInfo)
    {
      if !HasSecret(info) {
        return;
      }
      AddedIsDistinct(authInfo, info);
      var i := FindToBeReplaced(info);
      if i < |authInfo| {
        authInfo := Without(authInfo, i);
      }
      authInfo := authInfo + [info];
    }

    /** linphone_core_find_auth_info_to_be_replaced */
    method FindToBeReplaced(info: AuthInfo) returns (i: nat)
      ensures i == Place(authInfo, info)
    {
      i := 0;
      while i < |authInfo|
        invariant i <= |authInfo|
        invariant forall j :: 0 <= j < i ==> !SameIdentity(info, authInfo[j])
      {
        if SameIdentity(info, authInfo[i]) {
          return;
        }
        i := i + 1;
      }
    }
  }

  /** Where an entry of the same identity stands, or |l|. */
  function Place(l: seq<AuthInfo>, info: AuthInfo): (i: nat)
    ensures i <= |l| && (i < |l| ==> SameIdentity(info, l[i]))
    ensures forall j :: 0 <= j < i ==> !SameIdentity(info, l[j])
  {
    if l == [] || SameIdentity(info, l[0]) then 0 else 1 + Place(l[1..], info)
  }

  function Added(l: seq<AuthInfo>, info: AuthInfo): seq<AuthInfo> {
    var i := Place(l, info);
    (if i < |l| then Without(l, i) else l) + [info]
  }

  lemma WithoutIsDistinct(l: seq<AuthInfo>, i: nat)
    requires i < |l|
    ensures Distinct(l) ==> Distinct(Without(l, i))
  {
    hide Without, SameIdentity;
    WithoutAt(l, i);
  }

  /** No entry left has the identity of the one that goes, or of a new one. */
  lemma NoneLeft(l: seq<AuthInfo>, info: AuthInfo, j: nat)
    requires Distinct(l) && j < |l| && j != Place(l, info)
    ensures !SameIdentity(l[j], info)
  {
    var i := Place(l, info);
    SameIdentityBothWays(l[j], info);
    if i < |l| && i < j {
      SameIdentityBothWays(l[i], info);
      assert !SameIdentity(l[i], l[j]);
    }
  }

  lemma SameIdentityBothWays(a: AuthInfo, b: AuthInfo)
    ensures SameIdentity(a, b) == SameIdentity(b, a)
    ensures SameIdentity(a, b) ==> forall c :: SameIdentity(a, c) == SameIdentity(b, c)
  {
  }

  lemma DistinctSnoc(l: seq<AuthInfo>, info: AuthInfo)
    requires Distinct(l) && forall j :: 0 <= j < |l| ==> !SameIdentity(l[j], info)
    ensures Distinct(l + [info])
  {
    hide SameIdentity;
  }

  /** After an add, no two entries share an identity if none did before, and every entry
      of another identity is still there. */
  lemma AddedIsDistinct(l: seq<AuthInfo>, info: AuthInfo)
    ensures Distinct(l) ==> Distinct(Added(l, info))
    ensures forall ai :: ai in l && !SameIdentity(info, ai) ==> ai in Added(l, info)
    ensures info in Added(l, info)
  {
    hide SameIdentity, Place, Distinct, Without;
    var i := Place(l, info);
    var kept := if i < |l| then Without(l, i) else l;
    var r := Added(l, info);
    assert r[|kept|] == info;
    if i < |l| {
      WithoutAt(l, i);
      WithoutIsDistinct(l, i);
    }
    assert forall j :: 0 <= j < |kept| ==> kept[j] == l[if j < i then j else j + 1];
    forall ai | ai in l && !SameIdentity(info, ai)
      ensures ai in r
    {
      var j :| 0 <= j < |l| && l[j] == ai;
      assert r[if j < i then j else j - 1] == ai;
    }
    if Distinct(l) {
      forall j | 0 <= j < |kept|
        ensures !SameIdentity(kept[j], info)
      {
        NoneLeft(l, info, if j < i then j else j + 1);
      }
      DistinctSnoc(kept, info);
    }
  }

  /** An add takes away exactly the first entry that agrees with the new one in user,
      realm, domain and having an access token, and no other, whatever else differs. */
  lemma AddReplacesExactly(l: seq<AuthInfo>, info: AuthInfo, ai: AuthInfo)
    requires Distinct(l) && ai in l && ai != info
    ensures ai in Added(l, info)
            <==> (ai.username, ai.realm, ai.domain, ai.accessToken)
                 != (info.username, info.realm, info.domain, info.accessToken)
    ensures Added(l, info) != [] && Added(l, info)[|Added(l, info)| - 1] == info
  {
    hide Place, Without;
    AddedIsDistinct(l, info);
    if ai in Added(l, info) {
      var r := Added(l, info);
      var j :| 0 <= j < |r| && r[j] == ai;
      assert r[|r| - 1] == info;
      assert j < |r| - 1;
    }
  }
}
