/**
 The authorization-code handoff to the desktop app
 (packages/server/src/routes/desktopLogin.ts, lines 8-57), with the S256 method
 of sections 4.2 and 4.6 of RFC 7636. Handlers run to completion; SHA-256 is an
 injective function and codes are never generated twice.
 */
module DesktopLogin {
  import opened Totals

  const MAX_GRANTS: nat := 2000
  const GRANT_MS: int := 60_000

  datatype Crypto = Crypto(hash: string -> string, challengeFor: string -> string)

  datatype Grant = Grant(challenge: string, userId: string, epoch: int, expiresAt: int)

  /** `active` means neither deleted nor suspended; `epoch` is passwordChangedAt, or 0. */
  datatype User = User(active: bool, epoch: int)

  datatype State = State(grants: map<string, Grant>, users: map<string, User>)

  datatype Event =
    | Authorize(userId: string, challenge: string, code: string, now: int)
    | Exchange(code: string, verifier: string, now: int)
    | UserChanged(userId: string, user: Option<User>)

  datatype Outcome = Code(code: string) | Session(userId: string) | Refused(status: nat) | Done

  predicate Url64(c: char) {
    'A' <= c <= 'Z' || 'a' <= c <= 'z' || '0' <= c <= '9' || c == '_' || c == '-'
  }

  predicate IsChallenge(s: string) {
    |s| == 43 && forall i :: 0 <= i < |s| ==> Url64(s[i])
  }

  predicate IsVerifier(s: string) {
    43 <= |s| <= 128 && forall i :: 0 <= i < |s| ==> Url64(s[i]) || s[i] == '.' || s[i] == '~'
  }

  predicate IsCode(s: string) {
    |s| == 64 && forall i :: 0 <= i < |s| ==> 'a' <= s[i] <= 'f' || '0' <= s[i] <= '9'
  }

  function Unexpired(grants: map<string, Grant>, now: int): map<string, Grant> {
    map key | key in grants && grants[key].expiresAt > now :: grants[key]
  }

  /** The grant an exchange may consume: present, unexpired, and matching the verifier. */
  predicate Redeemable(crypto: Crypto, s: State, code: string, verifier: string, now: int) {
    && IsCode(code) && IsVerifier(verifier)
    && crypto.hash(code) in Unexpired(s.grants, now)
    && s.grants[crypto.hash(code)].challenge == crypto.challengeFor(verifier)
  }

  predicate Active(s: State, userId: string) {
    userId in s.users && s.users[userId].active
  }

  function Next(crypto: Crypto, s: State, e: Event): (State, Outcome) {
    match e
    case Authorize(userId, challenge, code, now) =>
      if !IsChallenge(challenge) then (s, Refused(400))
      else
        var pruned := s.(grants := Unexpired(s.grants, now));
        if |pruned.grants| >= MAX_GRANTS then (pruned, Refused(503))
        else if !Active(s, userId) then (pruned, Refused(401))
        else
          var grant := Grant(challenge, userId, s.users[userId].epoch, now + GRANT_MS);
          (pruned.(grants := pruned.grants[crypto.hash(code) := grant]), Code(code))
    case Exchange(code, verifier, now) =>
      if !IsCode(code) || !IsVerifier(verifier) then (s, Refused(400))
      else
        var pruned := s.(grants := Unexpired(s.grants, now));
        if !Redeemable(crypto, s, code, verifier, now) then (pruned, Refused(400))
        else
          var grant, consumed := s.grants[crypto.hash(code)], pruned.(grants := pruned.grants - {crypto.hash(code)});
          if !Active(s, grant.userId) || s.users[grant.userId].epoch != grant.epoch then (consumed, Refused(400))
          else (consumed, Session(grant.userId))
    case UserChanged(userId, user) =>
      (s.(users := if user.Some? then s.users[userId := user.value] else s.users - {userId}), Done)
  }

  // ---------------------------------------------------------------------
  // The handlers
  // ---------------------------------------------------------------------

  class DesktopGrants {
    const crypto: Crypto
    var grants: map<string, Grant>
    var users: map<string, User>

    function Now(): State
      reads this
    {
      State(grants, users)
    }

    constructor (crypto: Crypto)
      ensures this.crypto == crypto && Now() == State(map[], map[])
    {
      this.crypto := crypto;
      grants, users := map[], map[];
    }

    method Prune(now: int)
      modifies this`grants
      ensures grants == Unexpired(old(grants), now)
    {
      var todo := grants.Keys;
      while todo != {}
        invariant todo <= grants.Keys <= old(grants).Keys
        invariant forall key :: key in grants ==> grants[key] == old(grants)[key]
        invariant forall key :: key in old(grants) ==>
                    (key in grants <==> key in todo || old(grants)[key].expiresAt > now)
        decreases todo
      {
        var key :| key in todo;
        if grants[key].expiresAt <= now {
          grants := grants - {key};
        }
        todo := todo - {key};
      }
    }

    method Authorize(userId: string, challenge: string, code: string, now: int) returns (outcome: Outcome)
      modifies this`grants
      ensures (Now(), outcome) == Next(crypto, old(Now()), Event.Authorize(userId, challenge, code, now))
    {
      if !IsChallenge(challenge) {
        return Refused(400);
      }
      Prune(now);
      if |grants| >= MAX_GRANTS {
        return Refused(503);
      }
      if userId !in users || !users[userId].active {
        return Refused(401);
      }
      grants := grants[crypto.hash(code) := Grant(challenge, userId, users[userId].epoch, now + GRANT_MS)];
      return Code(code);
    }

    /** The grant is deleted before the account is looked at. */
    method Exchange(code: string, verifier: string, now: int) returns (outcome: Outcome)
      modifies this`grants
      ensures (Now(), outcome) == Next(crypto, old(Now()), Event.Exchange(code, verifier, now))
    {
      if !IsCode(code) || !IsVerifier(verifier) {
        return Refused(400);
      }
      Prune(now);
      var key := crypto.hash(code);
      if key !in grants || grants[key].challenge != crypto.challengeFor(verifier) {
        return Refused(400);
      }
      var grant := grants[key];
      grants := grants - {key};
      if grant.userId !in users || !users[grant.userId].active || users[grant.userId].epoch != grant.epoch {
        return Refused(400);
      }
      return Session(grant.userId);
    }
  }

  // ---------------------------------------------------------------------
  // Whole runs
  // ---------------------------------------------------------------------

  ghost function After(crypto: Crypto, run: seq<Event>): State {
    if run == [] then State(map[], map[]) else Next(crypto, After(crypto, run[..|run| - 1]), run[|run| - 1]).0
  }

  ghost function OutcomeAt(crypto: Crypto, run: seq<Event>, k: nat): Outcome
    requires k < |run|
  {
    Next(crypto, After(crypto, run[..k]), run[k]).1
  }

  ghost predicate Injective(hash: string -> string) {
    forall a, b :: hash(a) == hash(b) ==> a == b
  }

  /** No code is generated twice. */
  ghost predicate FreshCodes(run: seq<Event>) {
    forall i, j :: 0 <= i < j < |run| && run[i].Authorize? && run[j].Authorize? ==> run[i].code != run[j].code
  }

  /** The step at `i` granted `grant` under `key`. */
  ghost predicate Minted(crypto: Crypto, run: seq<Event>, i: nat, key: string, grant: Grant) {
    && i < |run| && run[i].Authorize? && OutcomeAt(crypto, run, i) == Code(run[i].code)
    && crypto.hash(run[i].code) == key
    && var s := After(crypto, run[..i]);
       run[i].userId in s.users
       && grant == Grant(run[i].challenge, run[i].userId, s.users[run[i].userId].epoch, run[i].now + GRANT_MS)
  }

  lemma MintedLonger(crypto: Crypto, run: seq<Event>, n: nat, i: nat, key: string, grant: Grant)
    requires n <= |run| && Minted(crypto, run[..n], i, key, grant)
    ensures Minted(crypto, run, i, key, grant)
  {
    assert run[..n][..i] == run[..i];
  }

  lemma {:induction false} GrantsWereMinted(crypto: Crypto, run: seq<Event>, key: string)
    requires key in After(crypto, run).grants
    ensures exists i :: Minted(crypto, run, i, key, After(crypto, run).grants[key])
  {
    var n := |run| - 1;
    var before := After(crypto, run[..n]);
    if run[n].Authorize? && OutcomeAt(crypto, run, n).Code? && crypto.hash(run[n].code) == key {
      assert Minted(crypto, run, n, key, After(crypto, run).grants[key]);
    } else {
      assert key in before.grants && before.grants[key] == After(crypto, run).grants[key];
      GrantsWereMinted(crypto, run[..n], key);
      var i :| Minted(crypto, run[..n], i, key, before.grants[key]);
      MintedLonger(crypto, run, n, i, key, before.grants[key]);
    }
  }

  /** What a step that issues a session found, and that it left no grant behind. */
  lemma SessionFacts(crypto: Crypto, s: State, e: Event)
    requires Next(crypto, s, e).1.Session?
    ensures e.Exchange? && crypto.hash(e.code) in s.grants && crypto.hash(e.code) !in Next(crypto, s, e).0.grants
    ensures var grant := s.grants[crypto.hash(e.code)];
            && Next(crypto, s, e).1 == Session(grant.userId)
            && grant.challenge == crypto.challengeFor(e.verifier) && e.now < grant.expiresAt
            && Active(s, grant.userId) && s.users[grant.userId].epoch == grant.epoch
  {
  }

  lemma OnlyAuthorizeAdds(crypto: Crypto, s: State, e: Event, key: string)
    requires key !in s.grants && key in Next(crypto, s, e).0.grants
    ensures e.Authorize? && crypto.hash(e.code) == key
  {
  }

  /**
   A session is issued only for a code that was authorized by the same user less
   than 60 seconds before, with a verifier that hashes to the authorized
   challenge, to an active account whose password epoch has not changed since.
   */
  lemma SessionWasAuthorized(crypto: Crypto, run: seq<Event>, k: nat)
    requires Injective(crypto.hash) && k < |run| && OutcomeAt(crypto, run, k).Session?
    ensures run[k].Exchange?
    ensures exists i: nat ::
              && i < k && run[i].Authorize? && OutcomeAt(crypto, run, i) == Code(run[k].code) && run[i].code == run[k].code
              && OutcomeAt(crypto, run, k) == Session(run[i].userId)
              && run[i].challenge == crypto.challengeFor(run[k].verifier)
              && run[k].now < run[i].now + GRANT_MS
              && Active(After(crypto, run[..k]), run[i].userId) && run[i].userId in After(crypto, run[..i]).users
              && After(crypto, run[..k]).users[run[i].userId].epoch == After(crypto, run[..i]).users[run[i].userId].epoch
  {
    hide Next, After;
    var s := After(crypto, run[..k]);
    SessionFacts(crypto, s, run[k]);
    var key := crypto.hash(run[k].code);
    GrantsWereMinted(crypto, run[..k], key);
    var i: nat :| Minted(crypto, run[..k], i, key, s.grants[key]);
    MintedLonger(crypto, run, k, i, key, s.grants[key]);
    assert run[..k][..i] == run[..i] && run[..k][i] == run[i];
    assert run[i].code == run[k].code;
  }

  lemma OneMoreStep(crypto: Crypto, run: seq<Event>, n: nat)
    requires n < |run|
    ensures After(crypto, run[..n + 1]) == Next(crypto, After(crypto, run[..n]), run[n]).0
  {
    assert run[..n + 1][..n] == run[..n];
  }

  /** Once consumed, a code stays gone. */
  lemma {:induction false} ConsumedStaysGone(crypto: Crypto, run: seq<Event>, i: nat, n: nat)
    requires Injective(crypto.hash) && FreshCodes(run)
    requires i < n <= |run| && OutcomeAt(crypto, run, i).Session?
    ensures run[i].Exchange? && crypto.hash(run[i].code) !in After(crypto, run[..n]).grants
  {
    hide Next, After;
    OneMoreStep(crypto, run, n - 1);
    SessionWasAuthorized(crypto, run, i);
    if i < n - 1 {
      ConsumedStaysGone(crypto, run, i, n - 1);
      var m: nat :| m < i && run[m].Authorize? && run[m].code == run[i].code;
      if crypto.hash(run[i].code) in After(crypto, run[..n]).grants {
        OnlyAuthorizeAdds(crypto, After(crypto, run[..n - 1]), run[n - 1], crypto.hash(run[i].code));
      }
    } else {
      SessionFacts(crypto, After(crypto, run[..i]), run[i]);
    }
  }

  /** Of all exchanges of one code, in any interleaving, at most one issues a session. */
  lemma CodePaysOnce(crypto: Crypto, run: seq<Event>, i: nat, j: nat)
    requires Injective(crypto.hash) && FreshCodes(run)
    requires i < j < |run| && OutcomeAt(crypto, run, i).Session? && OutcomeAt(crypto, run, j).Session?
    ensures run[i].code != run[j].code
  {
    ConsumedStaysGone(crypto, run, i, j);
  }

  lemma UnexpiredIsSmaller(grants: map<string, Grant>, now: int)
    ensures |Unexpired(grants, now)| <= |grants|
  {
    SubsetIsSmaller(Unexpired(grants, now).Keys, grants.Keys);
  }

  lemma {:induction false} SubsetIsSmaller(a: set<string>, b: set<string>)
    requires a <= b
    ensures |a| <= |b|
  {
    var rest := b - a;
    assert b == a + rest && a * rest == {};
    assert |b| == |a| + |rest|;
  }

  /** The table of pending grants never exceeds 2000 entries. */
  lemma {:induction false} TableIsBounded(crypto: Crypto, run: seq<Event>)
    ensures |After(crypto, run).grants| <= 2000
  {
    if run != [] {
      var n := |run| - 1;
      TableIsBounded(crypto, run[..n]);
      StepIsBounded(crypto, After(crypto, run[..n]), run[n]);
    }
  }

  lemma StepIsBounded(crypto: Crypto, s: State, e: Event)
    requires |s.grants| <= MAX_GRANTS
    ensures |Next(crypto, s, e).0.grants| <= MAX_GRANTS
  {
    if e.Authorize? {
      UnexpiredIsSmaller(s.grants, e.now);
      OneMoreGrant(crypto, s, e);
    } else if e.Exchange? {
      UnexpiredIsSmaller(s.grants, e.now);
      ExchangeShrinks(crypto, s, e);
      SubsetIsSmaller(Next(crypto, s, e).0.grants.Keys, s.grants.Keys);
    }
  }

  lemma OneMoreGrant(crypto: Crypto, s: State, e: Event)
    requires e.Authorize? && |Unexpired(s.grants, e.now)| <= |s.grants| <= MAX_GRANTS
    ensures |Next(crypto, s, e).0.grants| <= MAX_GRANTS
  {
  }

  lemma ExchangeShrinks(crypto: Crypto, s: State, e: Event)
    requires e.Exchange?
    ensures Next(crypto, s, e).0.grants.Keys <= s.grants.Keys
  {
  }

  // ---------------------------------------------------------------------
  // Which exchanges pay
  // ---------------------------------------------------------------------

  /** A code is handed out exactly for a 43-character challenge, below the table's bound, to an active account; the grant is dated and bound to the account's epoch. */
  lemma AuthorizeIff(crypto: Crypto, s: State, e: Event)
    requires e.Authorize?
    ensures var (t, outcome) := Next(crypto, s, e);
            && (outcome == Code(e.code) <==>
                  && |e.challenge| == 43 && (forall i :: 0 <= i < 43 ==> Url64(e.challenge[i]))
                  && |Unexpired(s.grants, e.now)| < 2000 && e.userId in s.users && s.users[e.userId].active)
            && (outcome == Refused(400) ==> !IsChallenge(e.challenge)) && (outcome == Refused(503) ==> |Unexpired(s.grants, e.now)| >= 2000)
            && (outcome == Refused(401) ==> e.userId !in s.users || !s.users[e.userId].active)
            && (outcome == Code(e.code) ==>
                  && crypto.hash(e.code) in t.grants
                  && t.grants[crypto.hash(e.code)] == Grant(e.challenge, e.userId, s.users[e.userId].epoch, e.now + 60_000))
            && t.users == s.users
  {
  }

  function When(e: Event): Option<int> {
    if e.UserChanged? then None else Some(e.now)
  }

  /** The clock does not run backwards. */
  ghost predicate Chronological(run: seq<Event>) {
    forall i, j :: 0 <= i < j < |run| && When(run[i]).Some? && When(run[j]).Some? ==> When(run[i]).value <= When(run[j]).value
  }

  /** The exchange presents the code and a well-formed verifier of its challenge. */
  predicate Fits(crypto: Crypto, e: Event, code: string, challenge: string) {
    && e.Exchange? && e.code == code
    && |code| == 64 && (forall i :: 0 <= i < 64 ==> 'a' <= code[i] <= 'f' || '0' <= code[i] <= '9')
    && 43 <= |e.verifier| <= 128
    && (forall i :: 0 <= i < |e.verifier| ==> Url64(e.verifier[i]) || e.verifier[i] == '.' || e.verifier[i] == '~')
    && crypto.challengeFor(e.verifier) == challenge
  }

  lemma FitsIsRedeemable(crypto: Crypto, s: State, e: Event, challenge: string)
    requires e.Exchange? && crypto.hash(e.code) in s.grants && s.grants[crypto.hash(e.code)].challenge == challenge
    ensures Redeemable(crypto, s, e.code, e.verifier, e.now)
       <==> Fits(crypto, e, e.code, challenge) && e.now < s.grants[crypto.hash(e.code)].expiresAt
  {
  }

  /** A key keeps its grant unless the grant expires, is redeemed, or another code has the same hash. */
  lemma StepKeepsGrant(crypto: Crypto, s: State, e: Event, key: string)
    requires key in s.grants && (When(e).Some? ==> When(e).value < s.grants[key].expiresAt)
    requires e.Authorize? ==> crypto.hash(e.code) != key
    requires e.Exchange? && crypto.hash(e.code) == key ==> !Redeemable(crypto, s, e.code, e.verifier, e.now)
    ensures key in Next(crypto, s, e).0.grants && Next(crypto, s, e).0.grants[key] == s.grants[key]
  {
  }

  /** What the holder of a redeemed grant is answered. */
  function Answer(s: State, grant: Grant): Outcome {
    if grant.userId in s.users && s.users[grant.userId].active && s.users[grant.userId].epoch == grant.epoch
    then Session(grant.userId) else Refused(400)
  }

  lemma StepRedeems(crypto: Crypto, s: State, e: Event)
    requires e.Exchange? && Redeemable(crypto, s, e.code, e.verifier, e.now)
    ensures crypto.hash(e.code) !in Next(crypto, s, e).0.grants
    ensures Next(crypto, s, e).1 == Answer(s, s.grants[crypto.hash(e.code)])
  {
  }

  /** An authorized code, from its authorization on. */
  ghost predicate Authorized(crypto: Crypto, run: seq<Event>, i: nat) {
    && Injective(crypto.hash) && FreshCodes(run) && Chronological(run)
    && i < |run| && run[i].Authorize? && OutcomeAt(crypto, run, i) == Code(run[i].code)
  }

  /** What the authorization at `i` stored. */
  ghost function GrantOf(crypto: Crypto, run: seq<Event>, i: nat): Grant
    requires i < |run| && run[i].Authorize? && run[i].userId in After(crypto, run[..i]).users
  {
    Grant(run[i].challenge, run[i].userId, After(crypto, run[..i]).users[run[i].userId].epoch, run[i].now + 60_000)
  }

  /** The grant is there as long as nobody has fitted it and its 60 seconds are not over. */
  lemma {:induction false} GrantStays(crypto: Crypto, run: seq<Event>, i: nat, n: nat)
    requires Authorized(crypto, run, i) && i < n <= |run|
    requires forall j :: i < j < n ==> !Fits(crypto, run[j], run[i].code, run[i].challenge)
    requires forall j :: i < j < n && When(run[j]).Some? ==> When(run[j]).value < run[i].now + 60_000
    ensures run[i].userId in After(crypto, run[..i]).users
    ensures var key := crypto.hash(run[i].code);
            key in After(crypto, run[..n]).grants && After(crypto, run[..n]).grants[key] == GrantOf(crypto, run, i)
  {
    hide Next, After, Fits, FreshCodes, Chronological, Injective;
    AuthorizeIff(crypto, After(crypto, run[..i]), run[i]);
    OneMoreStep(crypto, run, n - 1);
    if i < n - 1 {
      var key, s, e := crypto.hash(run[i].code), After(crypto, run[..n - 1]), run[n - 1];
      GrantStays(crypto, run, i, n - 1);
      OtherHash(crypto, run, i, n - 1);
      if e.Exchange? && crypto.hash(e.code) == key {
        SameCode(crypto, e.code, run[i].code);
        FitsIsRedeemable(crypto, s, e, run[i].challenge);
      }
      StepKeepsGrant(crypto, s, e, key);
    }
  }

  lemma OtherHash(crypto: Crypto, run: seq<Event>, i: nat, j: nat)
    requires Injective(crypto.hash) && FreshCodes(run) && i < j < |run| && run[i].Authorize?
    ensures run[j].Authorize? ==> crypto.hash(run[j].code) != crypto.hash(run[i].code)
  {
  }

  lemma SameCode(crypto: Crypto, a: string, b: string)
    requires Injective(crypto.hash) && crypto.hash(a) == crypto.hash(b)
    ensures a == b
  {
  }

  /** Once gone it stays gone. */
  lemma {:induction false} GrantStaysGone(crypto: Crypto, run: seq<Event>, i: nat, m: nat, n: nat)
    requires Injective(crypto.hash) && FreshCodes(run) && i < m <= n <= |run| && run[i].Authorize?
    requires crypto.hash(run[i].code) !in After(crypto, run[..m]).grants
    ensures crypto.hash(run[i].code) !in After(crypto, run[..n]).grants
  {
    hide Next, After, FreshCodes, Injective;
    if m < n {
      GrantStaysGone(crypto, run, i, m, n - 1);
      OneMoreStep(crypto, run, n - 1);
      OtherHash(crypto, run, i, n - 1);
      if crypto.hash(run[i].code) in After(crypto, run[..n]).grants {
        OnlyAuthorizeAdds(crypto, After(crypto, run[..n - 1]), run[n - 1], crypto.hash(run[i].code));
      }
    }
  }

  /** The clock had not passed the grant's end before, if it has not now. */
  lemma StillInTime(run: seq<Event>, k: nat, deadline: int)
    requires Chronological(run) && k < |run| && run[k].Exchange? && run[k].now < deadline
    ensures forall j :: 0 <= j < k && When(run[j]).Some? ==> When(run[j]).value < deadline
  {
    assert When(run[k]) == Some(run[k].now);
  }

  /** The first fitting exchange within the 60 seconds takes the grant away and is answered by the account's state. */
  lemma FirstFitRedeems(crypto: Crypto, run: seq<Event>, i: nat, j: nat)
    requires Authorized(crypto, run, i) && i < j < |run| && Fits(crypto, run[j], run[i].code, run[i].challenge)
    requires run[j].now < run[i].now + 60_000
    requires forall h :: i < h < j ==> !Fits(crypto, run[h], run[i].code, run[i].challenge)
    ensures run[i].userId in After(crypto, run[..i]).users && crypto.hash(run[i].code) !in After(crypto, run[..j + 1]).grants
    ensures OutcomeAt(crypto, run, j) == Answer(After(crypto, run[..j]), GrantOf(crypto, run, i))
  {
    hide Next, After, FreshCodes, Chronological, Injective, Redeemable;
    StillInTime(run, j, run[i].now + 60_000);
    GrantStays(crypto, run, i, j);
    FitsIsRedeemable(crypto, After(crypto, run[..j]), run[j], run[i].challenge);
    StepRedeems(crypto, After(crypto, run[..j]), run[j]);
    OneMoreStep(crypto, run, j);
  }

  lemma FirstFit(crypto: Crypto, run: seq<Event>, i: nat, k: nat) returns (j: nat)
    requires i < k < |run| && run[i].Authorize? && Fits(crypto, run[k], run[i].code, run[i].challenge)
    ensures i < j <= k && Fits(crypto, run[j], run[i].code, run[i].challenge)
    ensures forall h :: i < h < j ==> !Fits(crypto, run[h], run[i].code, run[i].challenge)
  {
    j := i + 1;
    while !Fits(crypto, run[j], run[i].code, run[i].challenge)
      invariant i < j <= k
      invariant forall h :: i < h < j ==> !Fits(crypto, run[h], run[i].code, run[i].challenge)
      decreases k - j
    {
      j := j + 1;
    }
  }

  /** Whoever is paid presented the code in time with a fitting verifier, and nobody had before. */
  lemma PaidWasFirstFit(crypto: Crypto, run: seq<Event>, i: nat, k: nat)
    requires Authorized(crypto, run, i) && i < k < |run| && run[k].Exchange? && run[k].code == run[i].code
    requires OutcomeAt(crypto, run, k).Session?
    ensures Fits(crypto, run[k], run[i].code, run[i].challenge) && run[k].now < run[i].now + 60_000
    ensures forall j :: i < j < k ==> !Fits(crypto, run[j], run[i].code, run[i].challenge)
  {
    hide Next, After, Chronological, Fits;
    SessionWasAuthorized(crypto, run, k);
    PaidFits(crypto, After(crypto, run[..k]), run[k], run[i].challenge);
    if h: nat :| i < h < k && Fits(crypto, run[h], run[i].code, run[i].challenge) {
      var j := FirstFit(crypto, run, i, h);
      FitsIsTimely(crypto, run, i, j, k);
      FirstFitRedeems(crypto, run, i, j);
      GrantStaysGone(crypto, run, i, j + 1, k);
      SessionFacts(crypto, After(crypto, run[..k]), run[k]);
    }
  }

  lemma PaidFits(crypto: Crypto, s: State, e: Event, challenge: string)
    requires Next(crypto, s, e).1.Session? && challenge == crypto.challengeFor(e.verifier)
    ensures e.Exchange? && Fits(crypto, e, e.code, challenge)
  {
  }

  lemma FitsIsTimely(crypto: Crypto, run: seq<Event>, i: nat, j: nat, k: nat)
    requires Chronological(run) && i < j <= k < |run| && run[i].Authorize? && run[k].Exchange? && run[k].now < run[i].now + 60_000
    requires Fits(crypto, run[j], run[i].code, run[i].challenge)
    ensures run[j].now < run[i].now + 60_000
  {
    StillInTime(run, k, run[i].now + 60_000);
    assert When(run[j]) == Some(run[j].now);
  }

  /**
   An exchange of an authorized code issues the session of its user exactly when
   it is the first that fits the challenge, comes within 60 seconds, and finds
   the account active with the password epoch of the authorization.
   */
  lemma ExchangePaysIff(crypto: Crypto, run: seq<Event>, i: nat, k: nat)
    requires Authorized(crypto, run, i) && i < k < |run| && run[k].Exchange? && run[k].code == run[i].code
    ensures OutcomeAt(crypto, run, k) == Session(run[i].userId) <==>
            && Fits(crypto, run[k], run[i].code, run[i].challenge) && run[k].now < run[i].now + 60_000
            && (forall j :: i < j < k ==> !Fits(crypto, run[j], run[i].code, run[i].challenge))
            && Active(After(crypto, run[..k]), run[i].userId) && run[i].userId in After(crypto, run[..i]).users
            && After(crypto, run[..k]).users[run[i].userId].epoch == After(crypto, run[..i]).users[run[i].userId].epoch
    ensures OutcomeAt(crypto, run, k).Session? ==> OutcomeAt(crypto, run, k) == Session(run[i].userId)
  {
    hide Next, After, Chronological, Fits;
    if OutcomeAt(crypto, run, k).Session? {
      PaidWasFirstFit(crypto, run, i, k);
      FirstFitRedeems(crypto, run, i, k);
    } else if Fits(crypto, run[k], run[i].code, run[i].challenge) && run[k].now < run[i].now + 60_000
              && forall j :: i < j < k ==> !Fits(crypto, run[j], run[i].code, run[i].challenge) {
      FirstFitRedeems(crypto, run, i, k);
    }
  }
}
