/**
 Recovery codes and password-reset tokens
 (packages/server/src/routes/auth.ts, lines 20-30 and 590-640;
 packages/server/src/routes/emailRecovery.ts, lines 76-101;
 packages/server/src/utils/accountEmail.ts, lines 33-49;
 packages/server/src/db/schema.ts, lines 69-91).

 Hashing the new password is an `await`: a request's first checks and its
 committing transaction are separate steps, and any other step may come between
 them. Codes and tokens are named by their hashes, and none is generated twice.
 */
module AccountRecovery {
  import opened Totals

  const RESEND_MS: int := 60_000
  const RESET_MS: int := 900_000
  const VERIFY_MS: int := 86_400_000

  /** `active`: neither deleted nor suspended; `native`: no home instance; `epoch`: passwordChangedAt or 0. */
  datatype User = User(active: bool, native: bool, epoch: int)

  datatype Purpose = Verify | Reset

  datatype Token = Token(userId: string, purpose: Purpose, email: string, epoch: int, createdAt: int, expiresAt: int)

  datatype State = State(
    users: map<string, User>,
    emails: map<string, string>,
    codes: set<(string, string)>,
    tokens: map<string, Token>,
    recovering: map<nat, (string, string)>,  // requests that wait for the password hash
    resetting: map<nat, string>
  )

  const EMPTY := State(map[], map[], {}, map[], map[], map[])

  datatype Event =
    | AccountChanged(userId: string, user: Option<User>, verified: Option<string>)
    | Rotate(userId: string, issued: seq<string>)
    | BeginRecover(req: nat, userId: string, digest: string)
    | CommitRecover(req: nat, now: int)
    | SendToken(userId: string, email: string, purpose: Purpose, hash: string, now: int)
    | MailFailed(hash: string)
    | BeginReset(req: nat, hash: string, now: int)
    | CommitReset(req: nat, now: int)

  datatype Outcome =
    | Recovered(userId: string, digest: string)  // the recovery code paid out
    | WasReset(userId: string, hash: string)     // the reset token paid out
    | Pending
    | Refused
    | Done

  /** Math.ceil(now / 1000) * 1000 */
  function NextSecond(now: int): int {
    (now + 999) / 1000 * 1000
  }

  function CodesOf(codes: set<(string, string)>, userId: string): set<(string, string)> {
    set c | c in codes && c.0 == userId
  }

  function TokensOf(tokens: map<string, Token>, userId: string): set<string> {
    set h | h in tokens && tokens[h].userId == userId
  }

  function Issued(userId: string, issued: seq<string>): set<(string, string)> {
    set d | d in issued :: (userId, d)
  }

  predicate Usable(s: State, userId: string) {
    userId in s.users && s.users[userId].active && s.users[userId].native
  }

  predicate LiveReset(s: State, hash: string, now: int) {
    hash in s.tokens && s.tokens[hash].purpose == Reset && s.tokens[hash].expiresAt > now
  }

  /** All that the committing transaction of a reset checks again. */
  predicate MayReset(s: State, hash: string, now: int) {
    && LiveReset(s, hash, now)
    && var token := s.tokens[hash];
       && Usable(s, token.userId) && token.userId in s.emails && s.emails[token.userId] == token.email
       && s.users[token.userId].epoch == token.epoch
  }

  function WithEpoch(s: State, userId: string, now: int): State {
    if userId in s.users then s.(users := s.users[userId := s.users[userId].(epoch := NextSecond(now))]) else s
  }

  function Next(s: State, e: Event): (State, Outcome) {
    match e
    case AccountChanged(userId, user, verified) =>
      // Deleting the row cascades to its codes, tokens and address.
      if user.None? then
        (s.(users := s.users - {userId}, emails := s.emails - {userId},
            codes := s.codes - CodesOf(s.codes, userId), tokens := s.tokens - TokensOf(s.tokens, userId)), Done)
      else
        (s.(users := s.users[userId := user.value],
            emails := if verified.Some? then s.emails[userId := verified.value] else s.emails - {userId}), Done)
    case Rotate(userId, issued) =>
      (s.(codes := s.codes - CodesOf(s.codes, userId) + Issued(userId, issued)), Done)
    case BeginRecover(req, userId, digest) =>
      if Usable(s, userId) && (userId, digest) in s.codes
      then (s.(recovering := s.recovering[req := (userId, digest)]), Pending)
      else (s, Refused)
    case CommitRecover(req, now) =>
      if req !in s.recovering then (s, Refused)
      else
        var code, t := s.recovering[req], s.(recovering := s.recovering - {req});
        if code !in s.codes then (t, Refused)
        else (WithEpoch(t.(codes := t.codes - {code}), code.0, now), Recovered(code.0, code.1))
    case SendToken(userId, email, purpose, hash, now) =>
      if !Usable(s, userId) then (s, Refused)
      else
        var kept := map h | h in s.tokens && s.tokens[h].expiresAt >= now :: s.tokens[h];
        if exists h :: h in kept && kept[h].userId == userId && kept[h].purpose == purpose && kept[h].createdAt > now - RESEND_MS
        then (s.(tokens := kept), Refused)
        else
          var token := Token(userId, purpose, email, s.users[userId].epoch, now, now + if purpose == Reset then RESET_MS else VERIFY_MS);
          (s.(tokens := kept[hash := token]), Done)
    case MailFailed(hash) => (s.(tokens := s.tokens - {hash}), Done)
    case BeginReset(req, hash, now) =>
      if LiveReset(s, hash, now) then (s.(resetting := s.resetting[req := hash]), Pending) else (s, Refused)
    case CommitReset(req, now) =>
      if req !in s.resetting then (s, Refused)
      else
        var hash, t := s.resetting[req], s.(resetting := s.resetting - {req});
        if !MayReset(s, hash, now) then (t, Refused)
        else
          var userId := s.tokens[hash].userId;
          (WithEpoch(t.(tokens := t.tokens - TokensOf(t.tokens, userId), codes := t.codes - CodesOf(t.codes, userId)), userId, now),
           WasReset(userId, hash))
  }

  // ---------------------------------------------------------------------
  // The handlers
  // ---------------------------------------------------------------------

  class RecoveryServer {
    var users: map<string, User>
    var emails: map<string, string>
    var codes: set<(string, string)>
    var tokens: map<string, Token>
    var recovering: map<nat, (string, string)>
    var resetting: map<nat, string>

    function Now(): State
      reads this
    {
      State(users, emails, codes, tokens, recovering, resetting)
    }

    constructor ()
      ensures Now() == EMPTY
    {
      users, emails, codes, tokens, recovering, resetting := map[], map[], {}, map[], map[], map[];
    }

    /** The transaction of POST /api/auth/recovery-codes, after the password was verified. */
    method RotateCodes(userId: string, issued: seq<string>)
      modifies this`codes
      ensures (Now(), Done) == Next(old(Now()), Rotate(userId, issued))
    {
      codes := codes - CodesOf(codes, userId);
      ghost var kept := codes;
      for i := 0 to |issued|
        invariant codes == kept + Issued(userId, issued[..i])
      {
        assert issued[..i + 1] == issued[..i] + [issued[i]];
        codes := codes + {(userId, issued[i])};
      }
      assert issued[..|issued|] == issued;
    }

    method BeginRecover(req: nat, userId: string, digest: string) returns (outcome: Outcome)
      modifies this`recovering
      ensures (Now(), outcome) == Next(old(Now()), Event.BeginRecover(req, userId, digest))
    {
      if userId !in users || !users[userId].native || !users[userId].active || (userId, digest) !in codes {
        return Refused;
      }
      recovering := recovering[req := (userId, digest)];
      return Pending;
    }

    /** Deleting the row decides: only a request that deletes it changes the password. */
    method CommitRecover(req: nat, now: int) returns (outcome: Outcome)
      modifies this
      ensures (Now(), outcome) == Next(old(Now()), Event.CommitRecover(req, now))
    {
      if req !in recovering {
        return Refused;
      }
      var code := recovering[req];
      recovering := recovering - {req};
      if code !in codes {
        return Refused;
      }
      codes := codes - {code};
      if code.0 in users {
        users := users[code.0 := users[code.0].(epoch := NextSecond(now))];
      }
      return Recovered(code.0, code.1);
    }

    /** sendAccountEmail up to the insert; the cooldown is per account and purpose. */
    method SendToken(userId: string, email: string, purpose: Purpose, hash: string, now: int) returns (outcome: Outcome)
      modifies this`tokens
      ensures (Now(), outcome) == Next(old(Now()), Event.SendToken(userId, email, purpose, hash, now))
    {
      if userId !in users || !users[userId].active || !users[userId].native {
        return Refused;
      }
      tokens := map h | h in tokens && tokens[h].expiresAt >= now :: tokens[h];
      if exists h :: h in tokens && tokens[h].userId == userId && tokens[h].purpose == purpose && tokens[h].createdAt > now - RESEND_MS {
        return Refused;
      }
      var lifetime := if purpose == Reset then RESET_MS else VERIFY_MS;
      tokens := tokens[hash := Token(userId, purpose, email, users[userId].epoch, now, now + lifetime)];
      return Done;
    }

    /** A delivery that failed takes its token back. */
    method MailFailed(hash: string)
      modifies this`tokens
      ensures (Now(), Done) == Next(old(Now()), Event.MailFailed(hash))
    {
      tokens := tokens - {hash};
    }

    method BeginReset(req: nat, hash: string, now: int) returns (outcome: Outcome)
      modifies this`resetting
      ensures (Now(), outcome) == Next(old(Now()), Event.BeginReset(req, hash, now))
    {
      if hash !in tokens || tokens[hash].purpose != Reset || tokens[hash].expiresAt <= now {
        return Refused;
      }
      resetting := resetting[req := hash];
      return Pending;
    }

    /** The row, the account and its address are read again inside the transaction. */
    method CommitReset(req: nat, now: int) returns (outcome: Outcome)
      modifies this
      ensures (Now(), outcome) == Next(old(Now()), Event.CommitReset(req, now))
    {
      if req !in resetting {
        return Refused;
      }
      var hash := resetting[req];
      resetting := resetting - {req};
      if hash !in tokens || tokens[hash].purpose != Reset || tokens[hash].expiresAt <= now {
        return Refused;
      }
      var token := tokens[hash];
      if token.userId !in users || !users[token.userId].active || !users[token.userId].native
         || token.userId !in emails || emails[token.userId] != token.email || users[token.userId].epoch != token.epoch
      {
        return Refused;
      }
      users := users[token.userId := users[token.userId].(epoch := NextSecond(now))];
      tokens := tokens - TokensOf(tokens, token.userId);
      codes := codes - CodesOf(codes, token.userId);
      return WasReset(token.userId, hash);
    }
  }

  // ---------------------------------------------------------------------
  // One step
  // ---------------------------------------------------------------------

  /** Only a rotation adds codes, and it drops the user's earlier ones. */
  lemma StepOnCodes(s: State, e: Event, code: (string, string))
    requires code in Next(s, e).0.codes
    ensures if e.Rotate? && e.userId == code.0 then code.1 in e.issued else code in s.codes
  {
  }

  /** Tokens are only ever inserted by SendToken, and a token in the table never changes. */
  lemma StepOnTokens(s: State, e: Event, hash: string)
    requires hash in Next(s, e).0.tokens
    ensures (hash in s.tokens && Next(s, e).0.tokens[hash] == s.tokens[hash]) || (e.SendToken? && e.hash == hash)
  {
  }

  lemma RecoveryConsumes(s: State, e: Event)
    requires Next(s, e).1.Recovered?
    ensures var code := (Next(s, e).1.userId, Next(s, e).1.digest);
            code in s.codes && code !in Next(s, e).0.codes
  {
  }

  lemma ResetConsumesAll(s: State, e: Event)
    requires Next(s, e).1.WasReset?
    ensures var (t, outcome) := Next(s, e);
            && outcome.hash in s.tokens && s.tokens[outcome.hash].userId == outcome.userId
            && (forall h :: h in t.tokens ==> t.tokens[h].userId != outcome.userId)
            && (forall c :: c in t.codes ==> c.0 != outcome.userId)
  {
  }

  // ---------------------------------------------------------------------
  // Whole runs
  // ---------------------------------------------------------------------

  ghost function After(run: seq<Event>): State {
    if run == [] then EMPTY else Next(After(run[..|run| - 1]), run[|run| - 1]).0
  }

  ghost function OutcomeAt(run: seq<Event>, k: nat): Outcome
    requires k < |run|
  {
    Next(After(run[..k]), run[k]).1
  }

  /** No recovery code and no token is generated twice. */
  ghost predicate FreshSecrets(run: seq<Event>) {
    && (forall i, j :: 0 <= i < j < |run| && run[i].Rotate? && run[j].Rotate? ==> forall d :: d in run[i].issued ==> d !in run[j].issued)
    && (forall i, j :: 0 <= i < j < |run| && run[i].SendToken? && run[j].SendToken? ==> run[i].hash != run[j].hash)
  }

  lemma OneMoreStep(run: seq<Event>, n: nat)
    requires n < |run|
    ensures After(run[..n + 1]) == Next(After(run[..n]), run[n]).0
  {
    assert run[..n + 1][..n] == run[..n];
  }

  /** The user's last rotation before `n` is the one at `i`. */
  ghost predicate LastRotation(run: seq<Event>, n: nat, userId: string, i: nat) {
    && i < n <= |run| && run[i].Rotate? && run[i].userId == userId
    && forall j :: i < j < n && run[j].Rotate? ==> run[j].userId != userId
  }

  /** Every code in the table comes from its user's last rotation. */
  lemma {:induction false} CodesAreFromLastRotation(run: seq<Event>, n: nat, code: (string, string))
    requires n <= |run| && code in After(run[..n]).codes
    ensures exists i: nat :: LastRotation(run, n, code.0, i) && code.1 in run[i].issued
  {
    hide Next;
    if n > 0 {
      OneMoreStep(run, n - 1);
      StepOnCodes(After(run[..n - 1]), run[n - 1], code);
      if run[n - 1].Rotate? && run[n - 1].userId == code.0 {
        assert LastRotation(run, n, code.0, n - 1);
      } else {
        CodesAreFromLastRotation(run, n - 1, code);
        var i: nat :| LastRotation(run, n - 1, code.0, i) && code.1 in run[i].issued;
        assert LastRotation(run, n, code.0, i);
      }
    }
  }

  /** A code pays only if the user's last rotation issued it: rotating invalidates all earlier codes. */
  lemma PaysFromLastRotation(run: seq<Event>, k: nat)
    requires k < |run| && OutcomeAt(run, k).Recovered?
    ensures exists i: nat :: LastRotation(run, k, OutcomeAt(run, k).userId, i) && OutcomeAt(run, k).digest in run[i].issued
  {
    RecoveryConsumes(After(run[..k]), run[k]);
    CodesAreFromLastRotation(run, k, (OutcomeAt(run, k).userId, OutcomeAt(run, k).digest));
  }

  ghost predicate IssuedBefore(run: seq<Event>, n: nat, digest: string)
    requires n <= |run|
  {
    exists m :: 0 <= m < n && run[m].Rotate? && digest in run[m].issued
  }

  /** A code that was issued and has left the table does not come back. */
  lemma {:induction false} CodeStaysGone(run: seq<Event>, i: nat, n: nat, code: (string, string))
    requires FreshSecrets(run) && i <= n <= |run| && code !in After(run[..i]).codes
    requires IssuedBefore(run, i, code.1)
    ensures code !in After(run[..n]).codes
  {
    hide Next;
    if i < n {
      CodeStaysGone(run, i, n - 1, code);
      OneMoreStep(run, n - 1);
      if code in After(run[..n]).codes {
        StepOnCodes(After(run[..n - 1]), run[n - 1], code);
      }
    }
  }

  /** However requests interleave across the hashing, a recovery code changes the password at most once. */
  lemma RecoveryCodePaysOnce(run: seq<Event>, i: nat, j: nat)
    requires FreshSecrets(run) && i < j < |run|
    requires OutcomeAt(run, i).Recovered? && OutcomeAt(run, j).Recovered?
    ensures OutcomeAt(run, i) != OutcomeAt(run, j)
  {
    hide Next, FreshSecrets;
    var code := (OutcomeAt(run, i).userId, OutcomeAt(run, i).digest);
    PaysFromLastRotation(run, i);
    assert IssuedBefore(run, i + 1, code.1) by {
      var m: nat :| LastRotation(run, i, code.0, m) && code.1 in run[m].issued;
    }
    RecoveryConsumes(After(run[..i]), run[i]);
    OneMoreStep(run, i);
    CodeStaysGone(run, i + 1, j, code);
    RecoveryConsumes(After(run[..j]), run[j]);
  }

  /** Tokens in the table were sent before. */
  lemma {:induction false} TokensWereSent(run: seq<Event>, n: nat, hash: string)
    requires n <= |run| && hash in After(run[..n]).tokens
    ensures exists i :: 0 <= i < n && run[i].SendToken? && run[i].hash == hash
  {
    hide Next;
    if n > 0 {
      OneMoreStep(run, n - 1);
      StepOnTokens(After(run[..n - 1]), run[n - 1], hash);
      if hash in After(run[..n - 1]).tokens {
        TokensWereSent(run, n - 1, hash);
      }
    }
  }

  /** A token held at one moment keeps its owner for as long as it is in the table, and once gone stays gone. */
  lemma {:induction false} HeldTokenKeepsOwner(run: seq<Event>, m: nat, n: nat, hash: string)
    requires FreshSecrets(run) && m <= n <= |run| && hash in After(run[..m]).tokens
    ensures hash in After(run[..n]).tokens ==> After(run[..n]).tokens[hash] == After(run[..m]).tokens[hash]
  {
    hide Next;
    if m < n {
      HeldTokenKeepsOwner(run, m, n - 1, hash);
      TokensWereSent(run, m, hash);
      OneMoreStep(run, n - 1);
      if hash in After(run[..n]).tokens {
        StepOnTokens(After(run[..n - 1]), run[n - 1], hash);
      }
    }
  }

  lemma {:induction false} GoneTokenStaysGone(run: seq<Event>, m: nat, i: nat, n: nat, hash: string)
    requires FreshSecrets(run) && m <= i <= n <= |run|
    requires hash in After(run[..m]).tokens && hash !in After(run[..i]).tokens
    ensures hash !in After(run[..n]).tokens
  {
    hide Next;
    if i < n {
      GoneTokenStaysGone(run, m, i, n - 1, hash);
      TokensWereSent(run, m, hash);
      OneMoreStep(run, n - 1);
      if hash in After(run[..n]).tokens {
        StepOnTokens(After(run[..n - 1]), run[n - 1], hash);
      }
    }
  }

  /**
   Of all tokens an account holds at one moment, at most one resets the password
   from then on, however many requests wait for a hash at that moment.
   */
  lemma OneHeldTokenPays(run: seq<Event>, m: nat, i: nat, j: nat)
    requires FreshSecrets(run) && m <= i < j < |run|
    requires OutcomeAt(run, i).WasReset? && OutcomeAt(run, j).WasReset?
    requires OutcomeAt(run, i).userId == OutcomeAt(run, j).userId
    ensures !(OutcomeAt(run, j).hash in TokensOf(After(run[..m]).tokens, OutcomeAt(run, j).userId))
  {
    hide Next, FreshSecrets;
    var hash, userId := OutcomeAt(run, j).hash, OutcomeAt(run, j).userId;
    if hash in After(run[..m]).tokens && After(run[..m]).tokens[hash].userId == userId {
      ResetConsumesAll(After(run[..i]), run[i]);
      OneMoreStep(run, i);
      HeldTokenKeepsOwner(run, m, i + 1, hash);
      GoneTokenStaysGone(run, m, i + 1, j, hash);
      ResetConsumesAll(After(run[..j]), run[j]);
    }
  }

  /** A reset also ends every recovery code the account had at that moment. */
  lemma ResetEndsRecoveryCodes(run: seq<Event>, i: nat, j: nat, digest: string)
    requires FreshSecrets(run) && i < j < |run|
    requires OutcomeAt(run, i).WasReset? && (OutcomeAt(run, i).userId, digest) in After(run[..i]).codes
    ensures OutcomeAt(run, j) != Recovered(OutcomeAt(run, i).userId, digest)
  {
    hide Next, FreshSecrets;
    var code := (OutcomeAt(run, i).userId, digest);
    CodesAreFromLastRotation(run, i, code);
    assert IssuedBefore(run, i + 1, digest) by {
      var m: nat :| LastRotation(run, i, code.0, m) && digest in run[m].issued;
    }
    ResetConsumesAll(After(run[..i]), run[i]);
    OneMoreStep(run, i);
    CodeStaysGone(run, i + 1, j, code);
    if OutcomeAt(run, j).Recovered? {
      RecoveryConsumes(After(run[..j]), run[j]);
    }
  }

  // ---------------------------------------------------------------------
  // Reset tokens after a recovery
  // ---------------------------------------------------------------------

  predicate Recovers(o: Outcome, userId: string) {
    o.Recovered? && o.userId == userId
  }

  /** Nothing strictly between the two moments rewrites the account's row or recovers it. */
  ghost predicate LeftAlone(run: seq<Event>, i: nat, j: nat, userId: string)
    requires j <= |run|
  {
    forall k: nat :: i < k < j ==> !(run[k].AccountChanged? && run[k].userId == userId) && !Recovers(OutcomeAt(run, k), userId)
  }

  /** Whether the account may receive a reset at the address of the token. */
  predicate Reachable(s: State, userId: string, token: Token) {
    Usable(s, userId) && userId in s.emails && s.emails[userId] == token.email
  }

  /** Unless its row is rewritten, an account keeps its address and can be reached as before; recovering and resetting write its epoch. */
  lemma StepOnAccount(s: State, e: Event, userId: string, token: Token)
    requires !(e.AccountChanged? && e.userId == userId)
    ensures Reachable(Next(s, e).0, userId, token) <==> Reachable(s, userId, token)
    ensures userId in Next(s, e).0.users <==> userId in s.users
  {
  }

  lemma StepOnEpoch(s: State, e: Event, userId: string)
    requires !(e.AccountChanged? && e.userId == userId) && userId in s.users && userId in Next(s, e).0.users
    ensures var (t, o) := Next(s, e);
            if Recovers(o, userId) then t.users[userId].epoch == NextSecond(e.now)
            else (o.WasReset? && o.userId == userId) || t.users[userId].epoch == s.users[userId].epoch
  {
  }

  /** While the token is in the table, the account's epoch is `epoch`. */
  predicate EpochIs(s: State, userId: string, hash: string, epoch: int) {
    hash in s.tokens && userId in s.users ==> s.users[userId].epoch == epoch
  }

  lemma StepKeepsEpoch(s: State, e: Event, userId: string, hash: string, token: Token, epoch: int)
    requires !(e.AccountChanged? && e.userId == userId) && !Recovers(Next(s, e).1, userId)
    requires hash in s.tokens && s.tokens[hash] == token && token.userId == userId && EpochIs(s, userId, hash, epoch)
    requires hash in Next(s, e).0.tokens ==> Next(s, e).0.tokens[hash] == token
    ensures EpochIs(Next(s, e).0, userId, hash, epoch)
  {
  }

  /** As long as a token held at a recovery is in the table, the account's epoch is the one the recovery wrote. */
  lemma {:induction false} EpochStays(run: seq<Event>, i: nat, n: nat, userId: string, hash: string)
    requires FreshSecrets(run) && i < n <= |run| && Recovers(OutcomeAt(run, i), userId) && LeftAlone(run, i, n, userId)
    requires hash in TokensOf(After(run[..i]).tokens, userId)
    ensures Reachable(After(run[..n]), userId, After(run[..i]).tokens[hash]) <==> Reachable(After(run[..i]), userId, After(run[..i]).tokens[hash])
    ensures EpochIs(After(run[..n]), userId, hash, NextSecond(run[i].now))
  {
    hide Next, FreshSecrets, Reachable, EpochIs, LeftAlone;
    var token, s, e := After(run[..i]).tokens[hash], After(run[..n - 1]), run[n - 1];
    OneMoreStep(run, n - 1);
    LeftAloneBefore(run, i, n, userId);
    HeldTokenKeepsOwner(run, i, n - 1, hash);
    HeldTokenKeepsOwner(run, i, n, hash);
    hide After;
    StepOnAccount(s, e, userId, token);
    if i == n - 1 {
      RecoveryWritesEpoch(s, e, userId, hash);
    } else {
      EpochStays(run, i, n - 1, userId, hash);
      if hash !in s.tokens {
        GoneTokenStaysGone(run, i, n - 1, n, hash);
        GoneHasNoEpoch(Next(s, e).0, userId, hash, NextSecond(run[i].now));
      } else {
        StepKeepsEpoch(s, e, userId, hash, token, NextSecond(run[i].now));
      }
    }
  }

  lemma LeftAloneBefore(run: seq<Event>, i: nat, n: nat, userId: string)
    requires i < n <= |run| && LeftAlone(run, i, n, userId) && Recovers(OutcomeAt(run, i), userId)
    ensures run[i].CommitRecover? && !(run[n - 1].AccountChanged? && run[n - 1].userId == userId)
    ensures i < n - 1 ==> LeftAlone(run, i, n - 1, userId) && !Recovers(OutcomeAt(run, n - 1), userId)
  {
  }

  lemma RecoveryWritesEpoch(s: State, e: Event, userId: string, hash: string)
    requires e.CommitRecover? && Recovers(Next(s, e).1, userId)
    ensures EpochIs(Next(s, e).0, userId, hash, NextSecond(e.now))
  {
  }

  lemma GoneHasNoEpoch(s: State, userId: string, hash: string, epoch: int)
    requires hash !in s.tokens
    ensures EpochIs(s, userId, hash, epoch)
  {
  }

  lemma OnlyCommitsRecover(s: State, e: Event)
    requires Next(s, e).1.Recovered?
    ensures e.CommitRecover?
  {
  }

  /**
   A reset token held when a recovery code pays: a request for it that commits
   while nothing else has touched the account pays exactly when the token is
   still alive, the account was reachable at its address, and the token's
   recorded epoch is the very second the recovery wrote.
   */
  lemma TokenSurvivesRecoveryIff(run: seq<Event>, i: nat, j: nat, userId: string, hash: string)
    requires FreshSecrets(run) && i < j < |run| && Recovers(OutcomeAt(run, i), userId) && LeftAlone(run, i, j, userId)
    requires hash in TokensOf(After(run[..i]).tokens, userId)
    requires run[j].CommitReset? && run[j].req in After(run[..j]).resetting && After(run[..j]).resetting[run[j].req] == hash
    ensures OutcomeAt(run, j) == WasReset(userId, hash)
       <==> && LiveReset(After(run[..j]), hash, run[j].now) && Reachable(After(run[..i]), userId, After(run[..i]).tokens[hash])
            && After(run[..i]).tokens[hash].epoch == NextSecond(run[i].now)
  {
    EpochStays(run, i, j, userId, hash);
    HeldTokenKeepsOwner(run, i, j, hash);
    hide FreshSecrets, LeftAlone, After, EpochIs, LiveReset;
    CommitPaysIff(After(run[..j]), run[j], userId, hash);
  }

  /** What decides a reset that commits. */
  lemma CommitPaysIff(s: State, e: Event, userId: string, hash: string)
    requires e.CommitReset? && e.req in s.resetting && s.resetting[e.req] == hash
    ensures Next(s, e).1 == WasReset(userId, hash)
       <==> LiveReset(s, hash, e.now) && s.tokens[hash].userId == userId && Reachable(s, userId, s.tokens[hash])
            && s.users[userId].epoch == s.tokens[hash].epoch
  {
  }

  /** Any recovery from `i` on, as far as `n`, is the one at `i`. */
  ghost predicate LastRecovery(run: seq<Event>, i: nat, n: nat, userId: string)
    requires n <= |run|
  {
    i < n && Recovers(OutcomeAt(run, i), userId) && forall k: nat :: i < k < n ==> !Recovers(OutcomeAt(run, k), userId)
  }

  lemma {:induction false} SomeRecoveryIsLast(run: seq<Event>, i: nat, n: nat, userId: string) returns (k: nat)
    requires i < n <= |run| && Recovers(OutcomeAt(run, i), userId)
    ensures i <= k && LastRecovery(run, k, n, userId)
  {
    hide Next;
    if n == i + 1 || Recovers(OutcomeAt(run, n - 1), userId) {
      k := n - 1;
    } else {
      k := SomeRecoveryIsLast(run, i, n - 1, userId);
    }
  }

  /** A token held at a recovery pays later only if its epoch is what that recovery, or a still later one, wrote. */
  lemma RecoveryEndsResetTokens(run: seq<Event>, i: nat, j: nat, userId: string, hash: string)
    requires FreshSecrets(run) && i < j < |run| && Recovers(OutcomeAt(run, i), userId)
    requires forall k :: i < k < j && run[k].AccountChanged? ==> run[k].userId != userId
    requires hash in TokensOf(After(run[..i]).tokens, userId) && OutcomeAt(run, j) == WasReset(userId, hash)
    ensures exists k: nat :: i <= k < j && Recovers(OutcomeAt(run, k), userId) && After(run[..i]).tokens[hash].epoch == NextSecond(run[k].now)
  {
    hide Next, FreshSecrets, Recovers;
    var k := SomeRecoveryIsLast(run, i, j, userId);
    HeldTokenKeepsOwner(run, i, k, hash);
    HeldTokenKeepsOwner(run, i, j, hash);
    PaysWithEpoch(After(run[..j]), run[j], userId, hash);
    if hash !in After(run[..k]).tokens {
      GoneTokenStaysGone(run, i, k, j, hash);
    }
    EpochStays(run, k, j, userId, hash);
  }

  lemma PaysWithEpoch(s: State, e: Event, userId: string, hash: string)
    requires Next(s, e).1 == WasReset(userId, hash)
    ensures hash in s.tokens && userId in s.users && s.users[userId].epoch == s.tokens[hash].epoch
  {
  }

  /** Two recoveries within one second, with a reset token sent between them. */
  const SAME_SECOND: seq<Event> :=
    [AccountChanged("u", Some(User(true, true, 0)), Some("u@mail")), Rotate("u", ["c", "d"]),
     BeginRecover(1, "u", "c"), CommitRecover(1, 1), SendToken("u", "u@mail", Reset, "h", 2),
     BeginRecover(2, "u", "d"), CommitRecover(2, 3), BeginReset(3, "h", 4), CommitReset(3, 4)]

  const MADE := State(map["u" := User(true, true, 0)], map["u" := "u@mail"], {}, map[], map[], map[])
  const TWO_CODES := MADE.(codes := {("u", "c"), ("u", "d")})
  const ONE_LEFT := State(map["u" := User(true, true, 1000)], map["u" := "u@mail"], {("u", "d")}, map[], map[], map[])
  const TOKEN_OUT := ONE_LEFT.(tokens := map["h" := Token("u", Reset, "u@mail", 1000, 2, 900_002)])
  const NONE_LEFT := TOKEN_OUT.(codes := {})

  lemma CodesMade()
    ensures Next(EMPTY, AccountChanged("u", Some(User(true, true, 0)), Some("u@mail"))).0 == MADE
    ensures Next(MADE, Rotate("u", ["c", "d"])).0 == TWO_CODES
  {
  }

  lemma FirstCodePays()
    ensures Next(TWO_CODES, BeginRecover(1, "u", "c")).0 == TWO_CODES.(recovering := map[1 := ("u", "c")])
    ensures Next(TWO_CODES.(recovering := map[1 := ("u", "c")]), CommitRecover(1, 1)).0 == ONE_LEFT
  {
  }

  lemma TokenSent()
    ensures Next(ONE_LEFT, SendToken("u", "u@mail", Reset, "h", 2)).0 == TOKEN_OUT
  {
  }

  lemma SecondCodePays()
    ensures Next(TOKEN_OUT, BeginRecover(2, "u", "d")).0 == TOKEN_OUT.(recovering := map[2 := ("u", "d")])
    ensures Next(TOKEN_OUT.(recovering := map[2 := ("u", "d")]), CommitRecover(2, 3)) == (NONE_LEFT, Recovered("u", "d"))
  {
    assert map[2 := ("u", "d")] - {2} == map[];
    assert TOKEN_OUT.codes - {("u", "d")} == {};
    assert TOKEN_OUT.users["u" := User(true, true, 1000)] == TOKEN_OUT.users;
  }

  lemma TokenPays()
    ensures Next(NONE_LEFT, BeginReset(3, "h", 4)).0 == NONE_LEFT.(resetting := map[3 := "h"])
    ensures Next(NONE_LEFT.(resetting := map[3 := "h"]), CommitReset(3, 4)).1 == WasReset("u", "h")
  {
  }

  lemma StatesOfSameSecond()
    ensures After(SAME_SECOND[..6]) == TOKEN_OUT.(recovering := map[2 := ("u", "d")])
    ensures After(SAME_SECOND[..8]) == NONE_LEFT.(resetting := map[3 := "h"])
  {
    hide Next;
    var run := SAME_SECOND;
    assert After(run[..0]) == EMPTY;
    hide After;
    CodesMade();
    FirstCodePays();
    TokenSent();
    SecondCodePays();
    TokenPays();
    OneMoreStep(run, 0);
    OneMoreStep(run, 1);
    OneMoreStep(run, 2);
    OneMoreStep(run, 3);
    OneMoreStep(run, 4);
    OneMoreStep(run, 5);
    OneMoreStep(run, 6);
    OneMoreStep(run, 7);
  }

  /** The token outlives the second recovery and pays. */
  lemma TokenOutlivesRecovery()
    ensures FreshSecrets(SAME_SECOND)
    ensures OutcomeAt(SAME_SECOND, 6) == Recovered("u", "d") && "h" in TokensOf(After(SAME_SECOND[..6]).tokens, "u")
    ensures OutcomeAt(SAME_SECOND, 8) == WasReset("u", "h")
  {
    hide Next, After;
    StatesOfSameSecond();
    SecondCodePays();
    TokenPays();
  }
}
