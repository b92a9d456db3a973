/**
 Which recovery codes and reset tokens pay, told by the account's rows and by
 what happened to them (packages/server/src/routes/auth.ts, lines 590-640;
 packages/server/src/routes/emailRecovery.ts, lines 76-101;
 packages/server/src/utils/accountEmail.ts, lines 33-72).
 */
module AccountOutcomes {
  import opened Totals
  import opened AccountRecovery

  // ---------------------------------------------------------------------
  // One step
  // ---------------------------------------------------------------------

  /** A recovery is taken up exactly for a live local account that holds the code. */
  lemma RecoverBeginsIff(s: State, e: Event)
    requires e.BeginRecover?
    ensures var (t, outcome) := Next(s, e);
            && (outcome == Pending <==>
                  && e.userId in s.users && s.users[e.userId].active && s.users[e.userId].native
                  && (e.userId, e.digest) in s.codes)
            && (outcome == Pending || outcome == Refused) && (outcome == Refused ==> t == s)
            && (outcome == Pending ==> t == s.(recovering := s.recovering[e.req := (e.userId, e.digest)]))
  {
  }

  /** A recovery pays exactly if its code is still there; it takes that code, dates the password, and leaves all else. */
  lemma RecoverPaysIff(s: State, e: Event)
    requires e.CommitRecover? && e.req in s.recovering
    ensures var (code, (t, outcome)) := (s.recovering[e.req], Next(s, e));
            && (outcome == Recovered(code.0, code.1) <==> code in s.codes)
            && (outcome == Recovered(code.0, code.1) || outcome == Refused)
            && (forall c :: c in t.codes <==> c in s.codes && c != code)
            && t.users.Keys == s.users.Keys && t.tokens == s.tokens && t.emails == s.emails && t.resetting == s.resetting
            && t.recovering == s.recovering - {e.req}
            && (forall u :: u in s.users && (u != code.0 || outcome == Refused) ==> t.users[u] == s.users[u])
            && (outcome.Recovered? && code.0 in s.users ==>
                  && t.users[code.0] == s.users[code.0].(epoch := t.users[code.0].epoch)
                  && t.users[code.0].epoch % 1000 == 0 && e.now <= t.users[code.0].epoch < e.now + 1000)
  {
    NextSecondIsNext(e.now);
  }

  /** The password is dated by the first whole second that is not before now. */
  lemma NextSecondIsNext(now: int)
    ensures NextSecond(now) % 1000 == 0 && now <= NextSecond(now) < now + 1000
  {
  }

  /** A reset is taken up exactly for an unexpired reset token. */
  lemma ResetBeginsIff(s: State, e: Event)
    requires e.BeginReset?
    ensures var (t, outcome) := Next(s, e);
            && (outcome == Pending <==> e.hash in s.tokens && s.tokens[e.hash].purpose == Reset && e.now < s.tokens[e.hash].expiresAt)
            && (outcome == Pending || outcome == Refused) && (outcome == Refused ==> t == s)
            && (outcome == Pending ==> t == s.(resetting := s.resetting[e.req := e.hash]))
  {
  }

  /** The token is an unexpired reset token of a live local account, at its present address and of its present password. */
  predicate Honoured(s: State, token: Token, now: int) {
    && token.purpose == Reset && now < token.expiresAt
    && token.userId in s.users && s.users[token.userId].active && s.users[token.userId].native
    && s.users[token.userId].epoch == token.epoch
    && token.userId in s.emails && s.emails[token.userId] == token.email
  }

  /** A reset pays exactly for an honoured token; it takes all the account's tokens and codes, dates the password, and leaves all else. */
  lemma ResetPaysIff(s: State, e: Event)
    requires e.CommitReset? && e.req in s.resetting
    ensures var (hash, (t, outcome)) := (s.resetting[e.req], Next(s, e));
            && (outcome.WasReset? <==> hash in s.tokens && Honoured(s, s.tokens[hash], e.now))
            && (outcome.WasReset? || outcome == Refused) && t.resetting == s.resetting - {e.req}
            && (outcome == Refused ==> t == s.(resetting := t.resetting))
  {
  }

  lemma ResetLeaves(s: State, e: Event)
    requires Next(s, e).1.WasReset?
    ensures e.CommitReset? && e.req in s.resetting && s.resetting[e.req] in s.tokens
    ensures var (userId, t) := (s.tokens[s.resetting[e.req]].userId, Next(s, e).0);
            && Next(s, e).1 == WasReset(userId, s.resetting[e.req])
            && (forall h :: h in t.tokens <==> h in s.tokens && s.tokens[h].userId != userId)
            && (forall h :: h in t.tokens ==> t.tokens[h] == s.tokens[h])
            && (forall c :: c in t.codes <==> c in s.codes && c.0 != userId)
            && t.users.Keys == s.users.Keys && t.emails == s.emails && t.recovering == s.recovering
            && userId in s.users && (forall u :: u in s.users && u != userId ==> t.users[u] == s.users[u])
            && t.users[userId] == s.users[userId].(epoch := t.users[userId].epoch)
            && t.users[userId].epoch % 1000 == 0 && e.now <= t.users[userId].epoch < e.now + 1000
  {
    NextSecondIsNext(e.now);
  }

  /** A token is sent exactly to a live local account that was sent none of its purpose within the last minute. */
  lemma TokenIsSentIff(s: State, e: Event)
    requires e.SendToken?
    ensures Next(s, e).1 == Done <==>
            && e.userId in s.users && s.users[e.userId].active && s.users[e.userId].native
            && forall h :: h in s.tokens && s.tokens[h].userId == e.userId && s.tokens[h].purpose == e.purpose ==>
                             s.tokens[h].createdAt + 60_000 <= e.now || s.tokens[h].expiresAt < e.now
  {
    var kept := map h | h in s.tokens && s.tokens[h].expiresAt >= e.now :: s.tokens[h];
    assert Usable(s, e.userId) ==>
        (Next(s, e).1 == Refused
         <==> exists h :: h in kept && kept[h].userId == e.userId && kept[h].purpose == e.purpose && kept[h].createdAt > e.now - RESEND_MS);
    if h :| h in s.tokens && s.tokens[h].userId == e.userId && s.tokens[h].purpose == e.purpose
            && s.tokens[h].createdAt + 60_000 > e.now && s.tokens[h].expiresAt >= e.now {
      assert h in kept;
    }
  }

  /** Sending clears the expired tokens away and stores one that lasts fifteen minutes or a day. */
  lemma SendingLeaves(s: State, e: Event)
    requires e.SendToken? && Next(s, e).1 == Done
    ensures var t := Next(s, e).0;
            && e.userId in s.users && e.hash in t.tokens
            && t.tokens[e.hash] == Token(e.userId, e.purpose, e.email, s.users[e.userId].epoch, e.now,
                                         if e.purpose == Reset then e.now + 900_000 else e.now + 86_400_000)
            && (forall h :: h in t.tokens && h != e.hash <==> h in s.tokens && h != e.hash && e.now <= s.tokens[h].expiresAt)
            && (forall h :: h in t.tokens && h != e.hash ==> t.tokens[h] == s.tokens[h])
            && t == s.(tokens := t.tokens)
  {
  }

  /** A rotation leaves its user exactly the issued codes, and everyone else theirs. */
  lemma RotationLeaves(s: State, e: Event)
    requires e.Rotate?
    ensures var t := Next(s, e).0;
            && (forall c :: c in t.codes <==> if c.0 == e.userId then c.1 in e.issued else c in s.codes)
            && t == s.(codes := t.codes)
  {
  }

  // ---------------------------------------------------------------------
  // Whole runs: codes
  // ---------------------------------------------------------------------

  /** What ends a held code, besides a rotation: it pays, a reset of the account pays, or the account goes. */
  predicate Spends(e: Event, outcome: Outcome, code: (string, string)) {
    || outcome == Recovered(code.0, code.1)
    || (outcome.WasReset? && outcome.userId == code.0)
    || (e.AccountChanged? && e.userId == code.0 && e.user.None?)
  }

  lemma StepOnCode(s: State, e: Event, code: (string, string))
    ensures code in Next(s, e).0.codes
       <==> if e.Rotate? && e.userId == code.0 then code.1 in e.issued else code in s.codes && !Spends(e, Next(s, e).1, code)
  {
  }

  ghost predicate Unspent(run: seq<Event>, i: nat, n: nat, code: (string, string))
    requires n <= |run|
  {
    forall k: nat :: i < k < n ==> !Spends(run[k], OutcomeAt(run, k), code)
  }

  /** A code is in the table exactly if its user's last rotation issued it and nothing has ended it since. */
  lemma {:induction false} CodeIsHeldIff(run: seq<Event>, n: nat, code: (string, string))
    requires n <= |run|
    ensures code in After(run[..n]).codes
       <==> exists i: nat :: LastRotation(run, n, code.0, i) && code.1 in run[i].issued && Unspent(run, i, n, code)
  {
    hide Next, Spends;
    if n > 0 {
      var s, e := After(run[..n - 1]), run[n - 1];
      CodeIsHeldIff(run, n - 1, code);
      OneMoreStep(run, n - 1);
      StepOnCode(s, e, code);
      if e.Rotate? && e.userId == code.0 {
        assert LastRotation(run, n, code.0, n - 1) && Unspent(run, n - 1, n, code);
      } else {
        forall i: nat | i < n - 1
          ensures LastRotation(run, n, code.0, i) <==> LastRotation(run, n - 1, code.0, i)
          ensures Unspent(run, i, n, code) <==> Unspent(run, i, n - 1, code) && !Spends(e, Next(s, e).1, code)
        {
        }
      }
    }
  }

  predicate Rotates(e: Event, userId: string) {
    e.Rotate? && e.userId == userId
  }

  /** A held code lasts exactly until its user rotates or it is ended. */
  lemma {:induction false} CodeLastsIff(run: seq<Event>, b: nat, n: nat, code: (string, string))
    requires FreshSecrets(run) && b <= n <= |run| && code in After(run[..b]).codes
    ensures code in After(run[..n]).codes
       <==> forall k: nat :: b <= k < n ==> !Rotates(run[k], code.0) && !Spends(run[k], OutcomeAt(run, k), code)
  {
    hide Next, Spends;
    if b < n {
      CodeLastsIff(run, b, n - 1, code);
      OneMoreStep(run, n - 1);
      StepOnCode(After(run[..n - 1]), run[n - 1], code);
      CodesAreFromLastRotation(run, b, code);
    }
  }

  /** The request's number is used by no other recovery in between. */
  ghost predicate RecoverWaits(run: seq<Event>, b: nat, n: nat) {
    && b < n <= |run| && run[b].BeginRecover? && OutcomeAt(run, b) == Pending
    && forall k :: b < k < n && (run[k].BeginRecover? || run[k].CommitRecover?) ==> run[k].req != run[b].req
  }

  lemma {:induction false} RecoverKeepsWaiting(run: seq<Event>, b: nat, n: nat)
    requires RecoverWaits(run, b, n)
    ensures run[b].req in After(run[..n]).recovering
    ensures After(run[..n]).recovering[run[b].req] == (run[b].userId, run[b].digest)
  {
    hide Next;
    OneMoreStep(run, n - 1);
    if b < n - 1 {
      RecoverKeepsWaiting(run, b, n - 1);
      StepKeepsRecovering(After(run[..n - 1]), run[n - 1], run[b].req);
    } else {
      RecoverBeginsIff(After(run[..b]), run[b]);
    }
  }

  lemma StepKeepsRecovering(s: State, e: Event, req: nat)
    requires req in s.recovering && (e.BeginRecover? || e.CommitRecover? ==> e.req != req)
    ensures req in Next(s, e).0.recovering && Next(s, e).0.recovering[req] == s.recovering[req]
  {
  }

  /**
   A recovery that was taken up pays exactly if, while the password was hashed,
   its user rotated no codes, the code did not pay another request, no reset of
   the account paid, and the account was not deleted.
   */
  lemma RecoveryPaysIff(run: seq<Event>, b: nat, j: nat)
    requires FreshSecrets(run) && RecoverWaits(run, b, j) && j < |run| && run[j].CommitRecover? && run[j].req == run[b].req
    ensures OutcomeAt(run, j) == Recovered(run[b].userId, run[b].digest)
       <==> forall k: nat :: b <= k < j ==>
                  !Rotates(run[k], run[b].userId) && !Spends(run[k], OutcomeAt(run, k), (run[b].userId, run[b].digest))
  {
    hide Next, Spends, FreshSecrets;
    RecoverBeginsIff(After(run[..b]), run[b]);
    CodeLastsIff(run, b, j, (run[b].userId, run[b].digest));
    RecoverKeepsWaiting(run, b, j);
    RecoverPaysIff(After(run[..j]), run[j]);
  }

  // ---------------------------------------------------------------------
  // Whole runs: tokens
  // ---------------------------------------------------------------------

  /** What ends a token: its mail failed, a reset of the account pays, the account goes, or it is cleared away after its expiry. */
  predicate Ends(s: State, e: Event, outcome: Outcome, hash: string, token: Token) {
    || e == MailFailed(hash)
    || (outcome.WasReset? && outcome.userId == token.userId)
    || (e.AccountChanged? && e.userId == token.userId && e.user.None?)
    || (e.SendToken? && Usable(s, e.userId) && token.expiresAt < e.now)
  }

  lemma StepOnToken(s: State, e: Event, hash: string)
    requires hash in s.tokens && (e.SendToken? ==> e.hash != hash)
    ensures hash in Next(s, e).0.tokens <==> !Ends(s, e, Next(s, e).1, hash, s.tokens[hash])
    ensures hash in Next(s, e).0.tokens ==> Next(s, e).0.tokens[hash] == s.tokens[hash]
  {
  }

  /** A token in the table is not sent again. */
  lemma SentOnce(run: seq<Event>, m: nat, k: nat, hash: string)
    requires FreshSecrets(run) && m <= k < |run| && hash in After(run[..m]).tokens
    ensures run[k].SendToken? ==> run[k].hash != hash
  {
    hide Next, After;
    TokensWereSent(run, m, hash);
  }

  /** A token in the table lasts exactly until it is ended. */
  lemma {:induction false} TokenLastsIff(run: seq<Event>, m: nat, n: nat, hash: string)
    requires FreshSecrets(run) && m <= n <= |run| && hash in After(run[..m]).tokens
    ensures hash in After(run[..n]).tokens
       <==> forall k: nat :: m <= k < n ==> !Ends(After(run[..k]), run[k], OutcomeAt(run, k), hash, After(run[..m]).tokens[hash])
    ensures hash in After(run[..n]).tokens ==> After(run[..n]).tokens[hash] == After(run[..m]).tokens[hash]
  {
    hide Next, Ends, After, FreshSecrets;
    if m < n {
      TokenLastsIff(run, m, n - 1, hash);
      OneMoreStep(run, n - 1);
      SentOnce(run, m, n - 1, hash);
      if hash in After(run[..n - 1]).tokens {
        StepOnToken(After(run[..n - 1]), run[n - 1], hash);
      } else {
        GoneTokenStaysGone(run, m, n - 1, n, hash);
      }
    }
  }

  /** The request's number is used by no other reset in between. */
  ghost predicate ResetWaits(run: seq<Event>, b: nat, n: nat) {
    && b < n <= |run| && run[b].BeginReset? && OutcomeAt(run, b) == Pending
    && forall k :: b < k < n && (run[k].BeginReset? || run[k].CommitReset?) ==> run[k].req != run[b].req
  }

  lemma {:induction false} ResetKeepsWaiting(run: seq<Event>, b: nat, n: nat)
    requires ResetWaits(run, b, n)
    ensures run[b].req in After(run[..n]).resetting && After(run[..n]).resetting[run[b].req] == run[b].hash
  {
    hide Next;
    OneMoreStep(run, n - 1);
    if b < n - 1 {
      ResetKeepsWaiting(run, b, n - 1);
      StepKeepsResetting(After(run[..n - 1]), run[n - 1], run[b].req);
    } else {
      ResetBeginsIff(After(run[..b]), run[b]);
    }
  }

  lemma StepKeepsResetting(s: State, e: Event, req: nat)
    requires req in s.resetting && (e.BeginReset? || e.CommitReset? ==> e.req != req)
    ensures req in Next(s, e).0.resetting && Next(s, e).0.resetting[req] == s.resetting[req]
  {
  }

  /** The message at `m` sent a reset token. */
  ghost predicate SentReset(run: seq<Event>, m: nat) {
    m < |run| && run[m].SendToken? && run[m].purpose == Reset && OutcomeAt(run, m) == Done
  }

  /** Strictly after `m` and before `n` the token's mail did not fail, no reset of the account paid, and the account was not deleted. */
  ghost predicate Undisturbed(run: seq<Event>, m: nat, n: nat, userId: string, hash: string)
    requires n <= |run|
  {
    forall k: nat :: m < k < n ==>
        && run[k] != MailFailed(hash) && !(OutcomeAt(run, k).WasReset? && OutcomeAt(run, k).userId == userId)
        && !(run[k].AccountChanged? && run[k].userId == userId && run[k].user.None?)
  }

  /** The clock that clears tokens away does not run ahead of `now`. */
  ghost predicate ClearedBy(run: seq<Event>, m: nat, n: nat, now: int)
    requires n <= |run|
  {
    forall k :: m < k < n && run[k].SendToken? ==> run[k].now <= now
  }

  lemma SentIsStored(run: seq<Event>, m: nat)
    requires SentReset(run, m)
    ensures run[m].hash in After(run[..m + 1]).tokens && run[m].userId in After(run[..m]).users
    ensures After(run[..m + 1]).tokens[run[m].hash]
         == Token(run[m].userId, Reset, run[m].email, After(run[..m]).users[run[m].userId].epoch, run[m].now, run[m].now + 900_000)
  {
    hide Next;
    OneMoreStep(run, m);
    SendingLeaves(After(run[..m]), run[m]);
  }

  /** Before its expiry, only a disturbance ends it. */
  lemma EndsOnlyIfDisturbed(run: seq<Event>, m: nat, n: nat, hash: string, token: Token, now: int)
    requires m < n <= |run| && ClearedBy(run, m, n, now) && now < token.expiresAt
    ensures Undisturbed(run, m, n, token.userId, hash)
       <==> forall k: nat :: m + 1 <= k < n ==> !Ends(After(run[..k]), run[k], OutcomeAt(run, k), hash, token)
  {
    hide Next, After, Usable;
    forall k: nat | m < k < n
      ensures Ends(After(run[..k]), run[k], OutcomeAt(run, k), hash, token)
         <==> || run[k] == MailFailed(hash) || (OutcomeAt(run, k).WasReset? && OutcomeAt(run, k).userId == token.userId)
              || (run[k].AccountChanged? && run[k].userId == token.userId && run[k].user.None?)
    {
    }
  }

  /**
   A reset with a token sent at `m` pays exactly if it commits within fifteen
   minutes, nothing has disturbed the token, and the account is then live,
   local, at the same address and of the same password.
   */
  lemma ResetRequestPaysIff(run: seq<Event>, m: nat, b: nat, j: nat)
    requires FreshSecrets(run) && SentReset(run, m) && m < b && ResetWaits(run, b, j) && run[b].hash == run[m].hash
    requires j < |run| && run[j].CommitReset? && run[j].req == run[b].req && ClearedBy(run, m, j, run[j].now)
    ensures run[m].userId in After(run[..m]).users
    ensures OutcomeAt(run, j) == WasReset(run[m].userId, run[m].hash) <==>
            && run[j].now < run[m].now + 900_000 && Undisturbed(run, m, j, run[m].userId, run[m].hash)
            && var (s, userId) := (After(run[..j]), run[m].userId);
               && userId in s.users && s.users[userId].active && s.users[userId].native
               && s.users[userId].epoch == After(run[..m]).users[userId].epoch
               && userId in s.emails && s.emails[userId] == run[m].email
  {
    hide Next, After, FreshSecrets, Ends, Undisturbed, ClearedBy;
    SentIsStored(run, m);
    var token := After(run[..m + 1]).tokens[run[m].hash];
    TokenLastsIff(run, m + 1, j, run[m].hash);
    ResetKeepsWaiting(run, b, j);
    ResetPaysIff(After(run[..j]), run[j]);
    if OutcomeAt(run, j).WasReset? {
      ResetLeaves(After(run[..j]), run[j]);
    }
    if run[j].now < run[m].now + 900_000 {
      EndsOnlyIfDisturbed(run, m, j, run[m].hash, token, run[j].now);
    }
  }
}
