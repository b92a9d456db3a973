/**
 What the calls of SpaceMembership answer and do, read off the tables, and what
 the tables say about the whole run
 (packages/server/src/routes/spaces.ts, lines 64-200, 385-560, 592-720, 935-1009,
 1206-1251, 1308-1423; packages/server/src/routes/explore.ts, lines 270-405 and
 444-548; packages/server/src/routes/admin.ts, lines 295-341 and 439-465).
 */
module SpaceOutcomes {
  import opened Totals
  import opened SpaceMembership

  // ---------------------------------------------------------------------
  // Answers
  // ---------------------------------------------------------------------

  /** An open invitation: the space exists, and the user is neither banned nor a member. */
  predicate Outside(s: State, id: string, user: string) {
    id in s.spaces && (id, user) !in s.bans && (id, user) !in s.members
  }

  /** Each answer of the three join routes and of a join request, by the rows alone; a ban is told before a membership. */
  lemma JoinAnswers(s: State, c: Call)
    requires c.PublicJoin? || c.JoinById? || c.JoinByCode? || c.RequestJoin?
    ensures var (status, id, user) := (Next(s, c).1, c.id, c.caller);
            && (c.PublicJoin? ==>
                  && (status == 200 <==> Outside(s, id, user) && s.spaces[id].visibility == Public)
                  && (status == 409 <==> id in s.spaces && s.spaces[id].visibility == Public && (id, user) !in s.bans && (id, user) in s.members)
                  && (status == 403 <==> id in s.spaces && (s.spaces[id].visibility != Public || (id, user) in s.bans))
                  && (status == 404 <==> id !in s.spaces))
            && (c.JoinById? ==>
                  && (status == 200 <==> Outside(s, id, user) && s.spaces[id].code == Some(c.code) && s.spaces[id].visibility != ByRequest)
                  && (status == 409 <==> id in s.spaces && s.spaces[id].code == Some(c.code) && (id, user) !in s.bans && (id, user) in s.members)
                  && (status == 403 <==>
                        && id in s.spaces && s.spaces[id].code == Some(c.code)
                        && ((id, user) in s.bans || ((id, user) !in s.members && s.spaces[id].visibility == ByRequest)))
                  && (status == 400 <==> id in s.spaces && s.spaces[id].code != Some(c.code))
                  && (status == 404 <==> id !in s.spaces))
            && (c.JoinByCode? ==>
                  && (status == 200 <==> Outside(s, id, user) && s.spaces[id].code == Some(c.code) && s.spaces[id].visibility != ByRequest)
                  && (status == 409 <==> id in s.spaces && s.spaces[id].code == Some(c.code) && (id, user) !in s.bans && (id, user) in s.members)
                  && (status == 403 <==>
                        && id in s.spaces && s.spaces[id].code == Some(c.code)
                        && ((id, user) in s.bans || ((id, user) !in s.members && s.spaces[id].visibility == ByRequest)))
                  && (status == 404 <==> id !in s.spaces || s.spaces[id].code != Some(c.code)))
            && (c.RequestJoin? ==>
                  && (status == 201 <==> Outside(s, id, user) && s.spaces[id].visibility == ByRequest && c.requestId !in s.requests
                                         && forall r :: r in s.requests ==> s.requests[r] != JoinRequest(id, user, Pending))
                  && (status == 409 <==>
                        && id in s.spaces && s.spaces[id].visibility == ByRequest && (id, user) !in s.bans
                        && ((id, user) in s.members || exists r :: r in s.requests && s.requests[r] == JoinRequest(id, user, Pending)))
                  && (status == 403 <==> id in s.spaces && (s.spaces[id].visibility != ByRequest || (id, user) in s.bans))
                  && (status == 404 <==> id !in s.spaces))
  {
  }

  /** When the remaining calls succeed. */
  lemma AcceptedIff(s: State, c: Call)
    ensures var (status, id) := (Next(s, c).1, c.id);
            && (c.Create? ==> (status == 201 <==> id !in s.spaces && forall o :: o in s.spaces ==> s.spaces[o].code != Some(c.code)))
            && (c.Edit? ==> (status == 200 <==>
                  && id in s.spaces && c.allowed
                  && (c.invite.Some? ==> forall o :: o in s.spaces && o != id ==> s.spaces[o].code != c.invite)))
            && (c.Delete? ==> (status == 200 <==> id in s.spaces && s.spaces[id].owner == c.caller))
            && (c.Decide? ==> (status == 200 <==>
                  && id in s.spaces && (s.spaces[id].owner == c.caller || c.allowed)
                  && c.requestId in s.requests && s.requests[c.requestId].space == id && s.requests[c.requestId].status == Pending
                  && (c.accept ==> (id, s.requests[c.requestId].user) !in s.members)))
            && (c.Remove? ==> (status == 200 <==>
                  id in s.spaces && (c.target == c.caller || c.allowed) && s.spaces[id].owner != c.target && (id, c.target) in s.members))
            && (c.Ban? ==> (status == 200 <==>
                  id in s.spaces && c.allowed && s.spaces[id].owner != c.target && c.target != c.caller && (id, c.target) !in s.bans))
            && (c.Unban? ==> (status == 200 <==> c.allowed && (id, c.target) in s.bans))
            && (c.TransferOwner? ==> (status == 200 <==>
                  id in s.spaces && s.spaces[id].owner == c.caller && c.target != c.caller && (id, c.target) in s.members))
            && (c.AdminJoin? ==> (status == 200 <==> id in s.spaces))
            && (c.AdminTransfer? ==> (status == 200 <==> id in s.spaces && c.active.Some? && (id, c.active.value) in s.members))
  {
  }

  predicate Accepted(s: State, c: Call) {
    Next(s, c).1 == 200 || Next(s, c).1 == 201
  }

  lemma RefusedChangesNothing(s: State, c: Call)
    requires !Accepted(s, c)
    ensures Next(s, c).0 == s
  {
  }

  // ---------------------------------------------------------------------
  // What one call does to each table
  // ---------------------------------------------------------------------

  /** The calls that bring a user into a space. */
  predicate Enters(s: State, c: Call, id: string, user: string) {
    && c.id == id
    && match c
       case Create(_, caller, _, code) => caller == user && id !in s.spaces && forall o :: o in s.spaces ==> s.spaces[o].code != Some(code)
       case PublicJoin(_, caller) => caller == user && Outside(s, id, user) && s.spaces[id].visibility == Public
       case JoinById(_, caller, code) => caller == user && Outside(s, id, user) && s.spaces[id].visibility != ByRequest && s.spaces[id].code == Some(code)
       case JoinByCode(_, caller, code) => caller == user && Outside(s, id, user) && s.spaces[id].visibility != ByRequest && s.spaces[id].code == Some(code)
       case Decide(_, caller, allowed, r, accept) =>
         accept && r in s.requests && s.requests[r] == JoinRequest(id, user, Pending) && id in s.spaces && (s.spaces[id].owner == caller || allowed)
       case AdminJoin(_, caller) => caller == user && id in s.spaces
       case _ => false
  }

  lemma MembershipStartsIff(s: State, c: Call, id: string, user: string)
    requires (id, user) !in s.members
    ensures (id, user) in Next(s, c).0.members <==> Enters(s, c, id, user)
  {
  }

  predicate Bans(s: State, c: Call, id: string, user: string) {
    c.Ban? && c.id == id && c.target == user && id in s.spaces && c.allowed && s.spaces[id].owner != user && c.caller != user
  }

  predicate LiftsBan(s: State, c: Call, id: string, user: string) {
    || (c.Unban? && c.id == id && c.target == user && c.allowed)
    || (c.AdminJoin? && c.id == id && c.caller == user && id in s.spaces && (id, user) !in s.members)
    || (c.Delete? && c.id == id && id in s.spaces && s.spaces[id].owner == c.caller)
  }

  lemma StepOnBans(s: State, c: Call, id: string, user: string)
    ensures (id, user) in Next(s, c).0.bans <==> Bans(s, c, id, user) || ((id, user) in s.bans && !LiftsBan(s, c, id, user))
  {
  }

  /** The calls that make a user the owner of a space. */
  predicate Hands(s: State, c: Call, id: string, user: string) {
    || (c.Create? && c.id == id && c.caller == user && id !in s.spaces && forall o :: o in s.spaces ==> s.spaces[o].code != Some(c.code))
    || (c.TransferOwner? && c.id == id && c.target == user && c.caller != user && (id, user) in s.members
        && id in s.spaces && s.spaces[id].owner == c.caller)
    || (c.AdminTransfer? && c.id == id && c.active == Some(user) && (id, user) in s.members && id in s.spaces)
  }

  predicate Destroys(s: State, c: Call, id: string) {
    c.Delete? && c.id == id && id in s.spaces && s.spaces[id].owner == c.caller
  }

  predicate HandsToSomeone(s: State, c: Call, id: string) {
    (c.Create? && Hands(s, c, id, c.caller)) || (c.TransferOwner? && Hands(s, c, id, c.target))
    || (c.AdminTransfer? && c.active.Some? && Hands(s, c, id, c.active.value))
  }

  lemma StepOnOwner(s: State, c: Call, id: string, user: string)
    ensures var t := Next(s, c).0;
            (id in t.spaces && t.spaces[id].owner == user) <==>
              Hands(s, c, id, user) || (id in s.spaces && s.spaces[id].owner == user && !HandsToSomeone(s, c, id) && !Destroys(s, c, id))
  {
  }

  /** Visibility and code are the creator's or the last editor's, and one code leads to one space. */
  lemma StepOnSettings(s: State, c: Call, id: string)
    requires id in Next(s, c).0.spaces
    ensures var settled := Next(s, c).0.spaces[id];
            if c.id == id && c.Create? && Accepted(s, c) then settled.visibility == c.visibility && settled.code == Some(c.code)
            else if c.id == id && c.Edit? && Accepted(s, c) then settled.visibility == c.visibility && settled.code == c.invite
            else id in s.spaces && settled.visibility == s.spaces[id].visibility && settled.code == s.spaces[id].code
  {
  }

  ghost predicate CodesAreUnique(s: State) {
    forall a, b :: a in s.spaces && b in s.spaces && s.spaces[a].code.Some? && s.spaces[a].code == s.spaces[b].code ==> a == b
  }

  lemma StepKeepsCodesUnique(s: State, c: Call)
    requires CodesAreUnique(s)
    ensures CodesAreUnique(Next(s, c).0)
  {
  }

  /** A request is there as an accepted request made it, decided as the last decision on it said, until its space goes. */
  lemma StepOnRequest(s: State, c: Call, r: string, row: JoinRequest)
    ensures var t := Next(s, c).0;
            r in t.requests && t.requests[r] == row <==>
              if c.RequestJoin? && c.requestId == r && Accepted(s, c) then row == JoinRequest(c.id, c.caller, Pending)
              else if c.Decide? && c.requestId == r && Accepted(s, c) then
                row == JoinRequest(s.requests[r].space, s.requests[r].user, if c.accept then Status.Accepted else Declined)
              else
                r in s.requests && s.requests[r] == row && !Destroys(s, c, row.space)
  {
  }

  // ---------------------------------------------------------------------
  // Whole runs
  // ---------------------------------------------------------------------

  ghost predicate Stayed(run: seq<Call>, i: nat, n: nat, id: string, user: string)
    requires n <= |run|
  {
    forall k: nat :: i < k < n ==> !TakenOut(After(run[..k]), run[k], id, user)
  }

  /** Someone is a member of a space exactly if a call brought them in and none has taken them out since. */
  lemma {:induction false} MemberIff(run: seq<Call>, n: nat, id: string, user: string)
    requires n <= |run|
    ensures (id, user) in After(run[..n]).members
       <==> exists i: nat :: i < n && (id, user) !in After(run[..i]).members && Enters(After(run[..i]), run[i], id, user) && Stayed(run, i, n, id, user)
  {
    hide Next, Rooted, OnePending, TakenOut, Enters, Stayed;
    if n > 0 {
      var s, c := After(run[..n - 1]), run[n - 1];
      MemberIff(run, n - 1, id, user);
      OwnersAreMembers(run[..n - 1]);
      OneMoreCall(run, n - 1);
      StayedLonger(run, n, id, user);
      if (id, user) in s.members {
        MembershipEndsIff(s, c, id, user);
      } else {
        MembershipStartsIff(s, c, id, user);
      }
    }
  }

  lemma StayedLonger(run: seq<Call>, n: nat, id: string, user: string)
    requires 0 < n <= |run|
    ensures forall i: nat :: i < n - 1 ==>
                (Stayed(run, i, n, id, user) <==> Stayed(run, i, n - 1, id, user) && !TakenOut(After(run[..n - 1]), run[n - 1], id, user))
    ensures Stayed(run, n - 1, n, id, user)
  {
  }

  ghost predicate StillBanned(run: seq<Call>, i: nat, n: nat, id: string, user: string)
    requires n <= |run|
  {
    forall k: nat :: i < k < n ==> !LiftsBan(After(run[..k]), run[k], id, user)
  }

  lemma BannedLonger(run: seq<Call>, n: nat, id: string, user: string)
    requires 0 < n <= |run|
    ensures forall i: nat :: i < n - 1 ==>
                (StillBanned(run, i, n, id, user) <==> StillBanned(run, i, n - 1, id, user) && !LiftsBan(After(run[..n - 1]), run[n - 1], id, user))
    ensures StillBanned(run, n - 1, n, id, user)
  {
  }

  /** Someone is banned exactly if a call banned them and none has lifted the ban since. */
  lemma {:induction false} BannedIff(run: seq<Call>, n: nat, id: string, user: string)
    requires n <= |run|
    ensures (id, user) in After(run[..n]).bans
       <==> exists i: nat :: i < n && Bans(After(run[..i]), run[i], id, user) && StillBanned(run, i, n, id, user)
  {
    hide Next, Bans, LiftsBan, StillBanned;
    if n > 0 {
      BannedIff(run, n - 1, id, user);
      OneMoreCall(run, n - 1);
      BannedLonger(run, n, id, user);
      StepOnBans(After(run[..n - 1]), run[n - 1], id, user);
    }
  }

  ghost predicate StillOwned(run: seq<Call>, i: nat, n: nat, id: string)
    requires n <= |run|
  {
    forall k: nat :: i < k < n ==> !HandsToSomeone(After(run[..k]), run[k], id) && !Destroys(After(run[..k]), run[k], id)
  }

  lemma OwnedLonger(run: seq<Call>, n: nat, id: string)
    requires 0 < n <= |run|
    ensures var (s, c) := (After(run[..n - 1]), run[n - 1]);
            forall i: nat :: i < n - 1 ==>
                (StillOwned(run, i, n, id) <==> StillOwned(run, i, n - 1, id) && !HandsToSomeone(s, c, id) && !Destroys(s, c, id))
    ensures StillOwned(run, n - 1, n, id)
  {
  }

  /** Someone owns a space exactly if a call made them the owner, and since then it was neither handed on nor deleted. */
  lemma {:induction false} OwnerIff(run: seq<Call>, n: nat, id: string, user: string)
    requires n <= |run|
    ensures Owns(After(run[..n]), id, user)
       <==> exists i: nat :: i < n && Hands(After(run[..i]), run[i], id, user) && StillOwned(run, i, n, id)
  {
    hide Next, Hands, HandsToSomeone, Destroys, StillOwned;
    if n > 0 {
      OwnerIff(run, n - 1, id, user);
      OneMoreCall(run, n - 1);
      OwnedLonger(run, n, id);
      StepOnOwner(After(run[..n - 1]), run[n - 1], id, user);
    }
  }

  /** On every run an invite code leads to one space at most. */
  lemma {:induction false} CodesStayUnique(run: seq<Call>)
    ensures CodesAreUnique(After(run))
  {
    hide Next;
    if run != [] {
      CodesStayUnique(run[..|run| - 1]);
      StepKeepsCodesUnique(After(run[..|run| - 1]), run[|run| - 1]);
    }
  }

  /**
   While someone stays banned from a space, they become a member only when a
   manager accepts the request they had made.
   */
  lemma {:induction false} BannedRun(run: seq<Call>, i: nat, j: nat, id: string, user: string)
    requires i <= j <= |run| && forall k: nat :: i <= k <= j ==> (id, user) in After(run[..k]).bans
    requires (id, user) !in After(run[..i]).members && (id, user) in After(run[..j]).members
    ensures exists k: nat :: i <= k < j && run[k].Decide? && run[k].accept && Approved(After(run[..k]), run[k], id, user)
  {
    hide Next, Enters;
    assert i < j;
    OneMoreCall(run, j - 1);
    var s, c := After(run[..j - 1]), run[j - 1];
    if (id, user) in s.members {
      BannedRun(run, i, j - 1, id, user);
    } else {
      MembershipStartsIff(s, c, id, user);
      BansBelongToSpaces(run, j - 1, id, user);
      EntersBanned(s, c, id, user);
    }
  }

  lemma EntersBanned(s: State, c: Call, id: string, user: string)
    requires (id, user) in s.bans && id in s.spaces && (id, user) !in s.members && (id, user) in Next(s, c).0.bans && Enters(s, c, id, user)
    ensures c.Decide? && c.accept && Approved(s, c, id, user)
  {
  }

  lemma {:induction false} BansBelongToSpaces(run: seq<Call>, n: nat, id: string, user: string)
    requires n <= |run| && (id, user) in After(run[..n]).bans
    ensures id in After(run[..n]).spaces
  {
    hide Next;
    if n > 0 {
      OneMoreCall(run, n - 1);
      var s, c := After(run[..n - 1]), run[n - 1];
      StepOnBans(s, c, id, user);
      if (id, user) in s.bans {
        BansBelongToSpaces(run, n - 1, id, user);
      }
      SpaceStays(s, c, id);
    }
  }

  lemma SpaceStays(s: State, c: Call, id: string)
    requires id in s.spaces && !Destroys(s, c, id)
    ensures id in Next(s, c).0.spaces
  {
  }
}
