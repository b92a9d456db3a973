/**
 Who belongs to a space
 (packages/server/src/routes/spaces.ts, lines 64-200, 385-560, 592-720, 935-1009,
 1206-1251, 1308-1423; packages/server/src/routes/explore.ts, lines 270-405 and
 444-548; packages/server/src/routes/admin.ts, lines 295-341 and 439-465;
 packages/server/src/db/schema.ts, lines 93-114 and 414-425).

 Permissions other than ownership are facts of the request. Primary keys are
 unique and deleting a space cascades to its rows.
 */
module SpaceMembership {
  import opened Totals

  datatype Visibility = Public | ByRequest | Private

  datatype Space = Space(owner: string, visibility: Visibility, code: Option<string>)

  datatype Status = Pending | Accepted | Declined

  datatype JoinRequest = JoinRequest(space: string, user: string, status: Status)

  datatype State = State(
    spaces: map<string, Space>,
    members: set<(string, string)>,      // (space, user)
    bans: set<(string, string)>,
    requests: map<string, JoinRequest>
  )

  const EMPTY := State(map[], {}, {}, map[])

  datatype Call =
    | Create(id: string, caller: string, visibility: Visibility, code: string)
    | Edit(id: string, allowed: bool, visibility: Visibility, invite: Option<string>)
    | Delete(id: string, caller: string)
    | PublicJoin(id: string, caller: string)
    | JoinById(id: string, caller: string, code: string)
    | JoinByCode(id: string, caller: string, code: string)  // `id` is the row found by its unique code
    | RequestJoin(id: string, caller: string, requestId: string)
    | Decide(id: string, caller: string, allowed: bool, requestId: string, accept: bool)
    | Remove(id: string, caller: string, allowed: bool, target: string)
    | Ban(id: string, caller: string, allowed: bool, target: string)
    | Unban(id: string, allowed: bool, target: string)
    | TransferOwner(id: string, caller: string, target: string)
    | AdminJoin(id: string, caller: string)
    | AdminTransfer(id: string, active: Option<string>)    // the named account, if active

  predicate Owns(s: State, id: string, user: string) {
    id in s.spaces && s.spaces[id].owner == user
  }

  predicate HasPending(s: State, id: string, user: string) {
    exists r :: r in s.requests && s.requests[r] == JoinRequest(id, user, Pending)
  }

  predicate HasCode(s: State, id: string, code: string) {
    id in s.spaces && s.spaces[id].code == Some(code)
  }

  function WithMember(s: State, id: string, user: string): State {
    s.(members := s.members + {(id, user)})
  }

  function Emptied(pairs: set<(string, string)>, id: string): set<(string, string)> {
    set p | p in pairs && p.0 != id
  }

  /** The join routes that take an invite code or none, once the space is known. */
  function Joined(s: State, id: string, caller: string): (State, nat)
    requires id in s.spaces
  {
    if (id, caller) in s.bans then (s, 403)
    else if (id, caller) in s.members then (s, 409)
    else if s.spaces[id].visibility == ByRequest then (s, 403)
    else (WithMember(s, id, caller), 200)
  }

  /** The state after a call and the HTTP status it answers with. */
  function Next(s: State, c: Call): (State, nat) {
    match c
    case Create(id, caller, visibility, code) =>
      if id in s.spaces || exists other :: other in s.spaces && HasCode(s, other, code) then (s, 500)
      else (WithMember(s.(spaces := s.spaces[id := Space(caller, visibility, Some(code))]), id, caller), 201)
    case Edit(id, allowed, visibility, invite) =>
      if id !in s.spaces then (s, 404)
      else if !allowed then (s, 403)
      else if invite.Some? && exists other :: other in s.spaces && other != id && HasCode(s, other, invite.value) then (s, 500)
      else (s.(spaces := s.spaces[id := s.spaces[id].(visibility := visibility, code := invite)]), 200)
    case Delete(id, caller) =>
      if id !in s.spaces then (s, 404)
      else if !Owns(s, id, caller) then (s, 403)
      else (State(s.spaces - {id}, Emptied(s.members, id), Emptied(s.bans, id),
                  map r | r in s.requests && s.requests[r].space != id :: s.requests[r]), 200)
    case PublicJoin(id, caller) =>
      if id !in s.spaces then (s, 404)
      else if s.spaces[id].visibility != Public then (s, 403)
      else if (id, caller) in s.bans then (s, 403)
      else if (id, caller) in s.members then (s, 409)
      else (WithMember(s, id, caller), 200)
    case JoinById(id, caller, code) =>
      if id !in s.spaces then (s, 404)
      else if s.spaces[id].code != Some(code) then (s, 400)
      else Joined(s, id, caller)
    case JoinByCode(id, caller, code) => if HasCode(s, id, code) then Joined(s, id, caller) else (s, 404)
    case RequestJoin(id, caller, requestId) =>
      if id !in s.spaces then (s, 404)
      else if s.spaces[id].visibility != ByRequest then (s, 403)
      else if (id, caller) in s.bans then (s, 403)
      else if (id, caller) in s.members || HasPending(s, id, caller) then (s, 409)
      else if requestId in s.requests then (s, 500)
      else (s.(requests := s.requests[requestId := JoinRequest(id, caller, Pending)]), 201)
    case Decide(id, caller, allowed, requestId, accept) =>
      if id !in s.spaces then (s, 404)
      else if !Owns(s, id, caller) && !allowed then (s, 403)
      else if requestId !in s.requests || s.requests[requestId].space != id then (s, 404)
      else if s.requests[requestId].status != Pending then (s, 400)
      else
        var r := s.requests[requestId];
        if !accept then (s.(requests := s.requests[requestId := r.(status := Declined)]), 200)
        // The insert hits the primary key and the whole transaction rolls back.
        else if (id, r.user) in s.members then (s, 500)
        else (WithMember(s.(requests := s.requests[requestId := r.(status := Accepted)]), id, r.user), 200)
    case Remove(id, caller, allowed, target) =>
      if id !in s.spaces then (s, 404)
      else if target != caller && !allowed then (s, 403)
      else if target == caller && Owns(s, id, caller) then (s, 400)
      else if (id, target) !in s.members then (s, 404)
      else if Owns(s, id, target) then (s, 400)
      else (s.(members := s.members - {(id, target)}), 200)
    case Ban(id, caller, allowed, target) =>
      if !allowed then (s, 403)
      else if Owns(s, id, target) || target == caller then (s, 400)
      else if (id, target) in s.bans then (s, 409)
      else if id !in s.spaces then (s, 500)
      else (s.(bans := s.bans + {(id, target)}, members := s.members - {(id, target)}), 200)
    case Unban(id, allowed, target) =>
      if !allowed then (s, 403)
      else if (id, target) !in s.bans then (s, 404)
      else (s.(bans := s.bans - {(id, target)}), 200)
    case TransferOwner(id, caller, target) =>
      if id !in s.spaces then (s, 404)
      else if !Owns(s, id, caller) then (s, 403)
      else if target == caller || (id, target) !in s.members then (s, 400)
      else (s.(spaces := s.spaces[id := s.spaces[id].(owner := target)]), 200)
    case AdminJoin(id, caller) =>
      if id !in s.spaces then (s, 404)
      else if (id, caller) in s.members then (s, 200)
      else (WithMember(s.(bans := s.bans - {(id, caller)}), id, caller), 200)
    case AdminTransfer(id, active) =>
      if id !in s.spaces || active.None? then (s, 404)
      else if (id, active.value) !in s.members then (s, 400)
      else (s.(spaces := s.spaces[id := s.spaces[id].(owner := active.value)]), 200)
  }

  // ---------------------------------------------------------------------
  // The handlers
  // ---------------------------------------------------------------------

  class SpaceServer {
    var spaces: map<string, Space>
    var members: set<(string, string)>
    var bans: set<(string, string)>
    var requests: map<string, JoinRequest>

    function Now(): State
      reads this
    {
      State(spaces, members, bans, requests)
    }

    constructor ()
      ensures Now() == EMPTY
    {
      spaces, members, bans, requests := map[], {}, {}, map[];
    }

    method Create(id: string, caller: string, visibility: Visibility, code: string) returns (status: nat)
      modifies this
      ensures (Now(), status) == Next(old(Now()), Call.Create(id, caller, visibility, code))
    {
      if id in spaces || exists other :: other in spaces && spaces[other].code == Some(code) {
        return 500;
      }
      spaces := spaces[id := Space(caller, visibility, Some(code))];
      members := members + {(id, caller)};
      return 201;
    }

    method PublicJoin(id: string, caller: string) returns (status: nat)
      modifies this`members
      ensures (Now(), status) == Next(old(Now()), Call.PublicJoin(id, caller))
    {
      if id !in spaces {
        return 404;
      }
      if spaces[id].visibility != Public || (id, caller) in bans {
        return 403;
      }
      if (id, caller) in members {
        return 409;
      }
      members := members + {(id, caller)};
      return 200;
    }

    method JoinById(id: string, caller: string, code: string) returns (status: nat)
      modifies this`members
      ensures (Now(), status) == Next(old(Now()), Call.JoinById(id, caller, code))
    {
      if id !in spaces {
        return 404;
      }
      if spaces[id].code != Some(code) {
        return 400;
      }
      status := Admit(id, caller);
    }

    method JoinByCode(caller: string, code: string) returns (status: nat, ghost id: string)
      modifies this`members
      ensures HasCode(old(Now()), id, code) || forall other :: !HasCode(old(Now()), other, code)
      ensures (Now(), status) == Next(old(Now()), Call.JoinByCode(id, caller, code))
    {
      id := "";
      var todo := spaces.Keys;
      while todo != {}
        invariant todo <= spaces.Keys && members == old(members)
        invariant forall other :: other in spaces && spaces[other].code == Some(code) ==> other in todo
        decreases todo
      {
        var other :| other in todo;
        if spaces[other].code == Some(code) {
          id := other;
          status := Admit(other, caller);
          return;
        }
        todo := todo - {other};
      }
      return 404, id;
    }

    /** The common end of both join-by-code routes. */
    method Admit(id: string, caller: string) returns (status: nat)
      requires id in spaces
      modifies this`members
      ensures (Now(), status) == Joined(old(Now()), id, caller)
    {
      if (id, caller) in bans {
        return 403;
      }
      if (id, caller) in members {
        return 409;
      }
      if spaces[id].visibility == ByRequest {
        return 403;
      }
      members := members + {(id, caller)};
      return 200;
    }

    method RequestJoin(id: string, caller: string, requestId: string) returns (status: nat)
      modifies this`requests
      ensures (Now(), status) == Next(old(Now()), Call.RequestJoin(id, caller, requestId))
    {
      if id !in spaces {
        return 404;
      }
      if spaces[id].visibility != ByRequest || (id, caller) in bans {
        return 403;
      }
      if (id, caller) in members || exists r :: r in requests && requests[r] == JoinRequest(id, caller, Pending) {
        return 409;
      }
      if requestId in requests {
        return 500;
      }
      requests := requests[requestId := JoinRequest(id, caller, Pending)];
      return 201;
    }

    /** Accepting inserts the member and then marks the request, or rolls both back. */
    method Decide(id: string, caller: string, allowed: bool, requestId: string, accept: bool) returns (status: nat)
      modifies this`members, this`requests
      ensures (Now(), status) == Next(old(Now()), Call.Decide(id, caller, allowed, requestId, accept))
    {
      if id !in spaces {
        return 404;
      }
      if spaces[id].owner != caller && !allowed {
        return 403;
      }
      if requestId !in requests || requests[requestId].space != id {
        return 404;
      }
      if requests[requestId].status != Pending {
        return 400;
      }
      var user := requests[requestId].user;
      if accept {
        if (id, user) in members {
          return 500;
        }
        members := members + {(id, user)};
        requests := requests[requestId := requests[requestId].(status := Accepted)];
      } else {
        requests := requests[requestId := requests[requestId].(status := Declined)];
      }
      return 200;
    }

    method Remove(id: string, caller: string, allowed: bool, target: string) returns (status: nat)
      modifies this`members
      ensures (Now(), status) == Next(old(Now()), Call.Remove(id, caller, allowed, target))
    {
      if id !in spaces {
        return 404;
      }
      if target != caller && !allowed {
        return 403;
      }
      if target == caller && spaces[id].owner == caller {
        return 400;
      }
      if (id, target) !in members {
        return 404;
      }
      if spaces[id].owner == target {
        return 400;
      }
      members := members - {(id, target)};
      return 200;
    }

    method Ban(id: string, caller: string, allowed: bool, target: string) returns (status: nat)
      modifies this`members, this`bans
      ensures (Now(), status) == Next(old(Now()), Call.Ban(id, caller, allowed, target))
    {
      if !allowed {
        return 403;
      }
      if (id in spaces && spaces[id].owner == target) || target == caller {
        return 400;
      }
      if (id, target) in bans {
        return 409;
      }
      if id !in spaces {
        return 500;
      }
      bans := bans + {(id, target)};
      members := members - {(id, target)};
      return 200;
    }

    method Unban(id: string, allowed: bool, target: string) returns (status: nat)
      modifies this`bans
      ensures (Now(), status) == Next(old(Now()), Call.Unban(id, allowed, target))
    {
      if !allowed {
        return 403;
      }
      if (id, target) !in bans {
        return 404;
      }
      bans := bans - {(id, target)};
      return 200;
    }

    method Edit(id: string, allowed: bool, visibility: Visibility, invite: Option<string>) returns (status: nat)
      modifies this`spaces
      ensures (Now(), status) == Next(old(Now()), Call.Edit(id, allowed, visibility, invite))
    {
      if id !in spaces {
        return 404;
      }
      if !allowed {
        return 403;
      }
      if invite.Some? && exists other :: other in spaces && other != id && spaces[other].code == invite {
        return 500;
      }
      spaces := spaces[id := spaces[id].(visibility := visibility, code := invite)];
      return 200;
    }

    /** Deleting the space's row cascades. */
    method Delete(id: string, caller: string) returns (status: nat)
      modifies this
      ensures (Now(), status) == Next(old(Now()), Call.Delete(id, caller))
    {
      if id !in spaces {
        return 404;
      }
      if spaces[id].owner != caller {
        return 403;
      }
      spaces, members, bans := spaces - {id}, Emptied(members, id), Emptied(bans, id);
      requests := map r | r in requests && requests[r].space != id :: requests[r];
      return 200;
    }

    method TransferOwner(id: string, caller: string, target: string) returns (status: nat)
      modifies this`spaces
      ensures (Now(), status) == Next(old(Now()), Call.TransferOwner(id, caller, target))
    {
      if id !in spaces {
        return 404;
      }
      if spaces[id].owner != caller {
        return 403;
      }
      if target == caller || (id, target) !in members {
        return 400;
      }
      spaces := spaces[id := spaces[id].(owner := target)];
      return 200;
    }

    method AdminJoin(id: string, caller: string) returns (status: nat)
      modifies this`members, this`bans
      ensures (Now(), status) == Next(old(Now()), Call.AdminJoin(id, caller))
    {
      if id !in spaces {
        return 404;
      }
      if (id, caller) !in members {
        bans := bans - {(id, caller)};
        members := members + {(id, caller)};
      }
      return 200;
    }

    method AdminTransfer(id: string, active: Option<string>) returns (status: nat)
      modifies this`spaces
      ensures (Now(), status) == Next(old(Now()), Call.AdminTransfer(id, active))
    {
      if id !in spaces || active.None? {
        return 404;
      }
      if (id, active.value) !in members {
        return 400;
      }
      spaces := spaces[id := spaces[id].(owner := active.value)];
      return 200;
    }
  }

  // ---------------------------------------------------------------------
  // One call
  // ---------------------------------------------------------------------

  /** The owner is a member, members and requests belong to existing spaces. */
  ghost predicate Rooted(s: State) {
    && (forall id :: id in s.spaces ==> (id, s.spaces[id].owner) in s.members)
    && (forall p :: p in s.members ==> p.0 in s.spaces)
    && (forall r :: r in s.requests ==> s.requests[r].space in s.spaces)
  }

  /** No two pending requests of one user for one space. */
  ghost predicate OnePending(s: State) {
    forall a, b :: a in s.requests && b in s.requests && s.requests[a].status == Pending && s.requests[b] == s.requests[a] ==> a == b
  }

  lemma StepKeepsRooted(s: State, c: Call)
    requires Rooted(s)
    ensures Rooted(Next(s, c).0)
  {
  }

  /** What one call can do to the requests: add one pending, decide one, or drop those of a deleted space. */
  lemma StepOnRequests(s: State, c: Call, r: string)
    requires Rooted(s)
    ensures var t := Next(s, c).0;
            && (r in t.requests && r !in s.requests ==>
                  c.RequestJoin? && c.requestId == r && t.requests[r] == JoinRequest(c.id, c.caller, Pending) && !HasPending(s, c.id, c.caller))
            && (r in t.requests && r in s.requests && t.requests[r] != s.requests[r] ==>
                  c.Decide? && c.requestId == r && s.requests[r].status == Pending
                  && t.requests[r] == s.requests[r].(status := if c.accept then Accepted else Declined))
            && (r in s.requests && r !in t.requests ==> s.requests[r].space !in t.spaces)
  {
  }

  lemma StepKeepsOnePending(s: State, c: Call)
    requires Rooted(s) && OnePending(s)
    ensures OnePending(Next(s, c).0)
  {
  }

  /** The calls that take a user out of a space: leaving, a kick, a ban, the end of the space; never for the owner alone. */
  predicate TakenOut(s: State, c: Call, id: string, user: string) {
    || (c.Remove? && c.id == id && c.target == user && (c.caller == user || c.allowed) && !Owns(s, id, user))
    || (c.Ban? && c.id == id && c.target == user && c.caller != user && c.allowed && (id, user) !in s.bans && !Owns(s, id, user))
    || (c.Delete? && c.id == id && Owns(s, id, c.caller))
  }

  /** A member stops being one exactly by one of these calls. */
  lemma MembershipEndsIff(s: State, c: Call, id: string, user: string)
    requires Rooted(s) && (id, user) in s.members
    ensures (id, user) !in Next(s, c).0.members <==> TakenOut(s, c, id, user)
  {
  }

  /** How a user can become a member of an existing request-only space. */
  predicate Approved(s: State, c: Call, id: string, user: string) {
    || (c.Decide? && c.id == id && c.accept && c.requestId in s.requests && s.requests[c.requestId] == JoinRequest(id, user, Pending)
        && (Owns(s, id, c.caller) || c.allowed))
    || (c.AdminJoin? && c.id == id && c.caller == user)
  }

  /** A request-only space gains a member exactly by an accepted request or the admin override. */
  lemma RequestOnlyGrowsIff(s: State, c: Call, id: string, user: string)
    requires Rooted(s) && id in s.spaces && s.spaces[id].visibility == ByRequest && (id, user) !in s.members
    ensures (id, user) in Next(s, c).0.members <==> Approved(s, c, id, user)
  {
  }

  // ---------------------------------------------------------------------
  // Whole runs
  // ---------------------------------------------------------------------

  ghost function After(run: seq<Call>): State {
    if run == [] then EMPTY else Next(After(run[..|run| - 1]), run[|run| - 1]).0
  }

  lemma OneMoreCall(run: seq<Call>, n: nat)
    requires n < |run|
    ensures After(run[..n + 1]) == Next(After(run[..n]), run[n]).0
  {
    assert run[..n + 1][..n] == run[..n];
  }

  /** On every run each space's owner is a member, and no user has two pending requests for one space. */
  lemma {:induction false} OwnersAreMembers(run: seq<Call>)
    ensures Rooted(After(run)) && OnePending(After(run))
  {
    hide Next, Rooted, OnePending;
    if run != [] {
      var n := |run| - 1;
      OwnersAreMembers(run[..n]);
      StepKeepsRooted(After(run[..n]), run[n]);
      StepKeepsOnePending(After(run[..n]), run[n]);
    } else {
      NothingYet();
    }
  }

  lemma NothingYet()
    ensures Rooted(EMPTY) && OnePending(EMPTY)
  {
  }

  /** No request id is generated twice. */
  ghost predicate FreshRequests(run: seq<Call>) {
    forall i, j :: 0 <= i < j < |run| && run[i].RequestJoin? && run[j].RequestJoin? ==> run[i].requestId != run[j].requestId
  }

  /** The call at `k` decides the request: it was pending before and is not after. */
  ghost predicate Decides(run: seq<Call>, k: nat, r: string)
    requires k < |run|
  {
    && r in After(run[..k]).requests && After(run[..k]).requests[r].status == Pending
    && r in After(run[..k + 1]).requests && After(run[..k + 1]).requests[r].status != Pending
  }

  lemma {:induction false} RequestsWereMade(run: seq<Call>, n: nat, r: string)
    requires n <= |run| && r in After(run[..n]).requests
    ensures exists i :: 0 <= i < n && run[i].RequestJoin? && run[i].requestId == r
  {
    hide Next, Rooted;
    if n > 0 {
      OneMoreCall(run, n - 1);
      OwnersAreMembers(run[..n - 1]);
      StepOnRequests(After(run[..n - 1]), run[n - 1], r);
      if r in After(run[..n - 1]).requests {
        RequestsWereMade(run, n - 1, r);
      }
    }
  }

  lemma {:induction false} DecidedStaysDecided(run: seq<Call>, m: nat, n: nat, r: string)
    requires FreshRequests(run) && 0 < m <= n <= |run|
    requires r in After(run[..m]).requests && After(run[..m]).requests[r].status != Pending
    ensures r in After(run[..n]).requests ==> After(run[..n]).requests[r] == After(run[..m]).requests[r]
  {
    hide Next, Rooted;
    if m < n {
      DecidedStaysDecided(run, m, n - 1, r);
      RequestsWereMade(run, m, r);
      OneMoreCall(run, n - 1);
      OwnersAreMembers(run[..n - 1]);
      StepOnRequests(After(run[..n - 1]), run[n - 1], r);
    }
  }

  /** A join request leaves `pending` at most once. */
  lemma DecidedOnce(run: seq<Call>, i: nat, j: nat, r: string)
    requires FreshRequests(run) && i < j < |run| && Decides(run, i, r)
    ensures !Decides(run, j, r)
  {
    hide Next;
    if Decides(run, j, r) {
      DecidedStaysDecided(run, i + 1, j, r);
    }
  }

  /** The space exists and is request-only at every moment from `i` to `j`. */
  ghost predicate RequestOnly(run: seq<Call>, i: nat, j: nat, id: string)
    requires i <= j <= |run|
  {
    forall k :: i <= k <= j ==> id in After(run[..k]).spaces && After(run[..k]).spaces[id].visibility == ByRequest
  }

  /**
   While a space is request-only, whoever is a member at the end and was not at
   the start got in by an accepted request of their own or by the admin override.
   */
  lemma {:induction false} RequestOnlyRun(run: seq<Call>, i: nat, j: nat, id: string, user: string)
    requires i <= j <= |run| && RequestOnly(run, i, j, id)
    requires (id, user) !in After(run[..i]).members && (id, user) in After(run[..j]).members
    ensures exists k: nat :: i <= k < j && Approved(After(run[..k]), run[k], id, user)
  {
    hide Next, Rooted, Approved;
    assert i < j;
    OneMoreCall(run, j - 1);
    if (id, user) in After(run[..j - 1]).members {
      RequestOnlyRun(run, i, j - 1, id, user);
    } else {
      OwnersAreMembers(run[..j - 1]);
      assert id in After(run[..j - 1]).spaces;
      RequestOnlyGrowsIff(After(run[..j - 1]), run[j - 1], id, user);
    }
  }

  /**
   A member stays one for exactly as long as nothing takes the user out, so
   whoever was a member and is not any more was taken out in between.
   */
  lemma {:induction false} MembershipLastsIff(run: seq<Call>, i: nat, j: nat, id: string, user: string)
    requires i <= j <= |run| && (id, user) in After(run[..i]).members
    ensures (forall k: nat :: i <= k <= j ==> (id, user) in After(run[..k]).members)
       <==> forall k: nat :: i <= k < j ==> !TakenOut(After(run[..k]), run[k], id, user)
    ensures (id, user) !in After(run[..j]).members ==> exists k: nat :: i <= k < j && TakenOut(After(run[..k]), run[k], id, user)
  {
    hide Next, Rooted, TakenOut, After;
    if i < j {
      MembershipLastsIff(run, i, j - 1, id, user);
      OwnersAreMembers(run[..j - 1]);
      OneMoreCall(run, j - 1);
      if (id, user) in After(run[..j - 1]).members {
        MembershipEndsIff(After(run[..j - 1]), run[j - 1], id, user);
      }
    }
  }
}
