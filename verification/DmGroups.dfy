/**
 Direct-message channels and what their requests do to them
 (packages/server/src/routes/dm.ts, lines 194-261, 283-398, 477-789, 926-1164,
 1167-1455, 1716-1752, 1755-2037, 2040-2147, 2162-2245, 2363-2487 and 2490-2580):
 who is a member, who owns a group, which requests are refused, and the structure
 every run keeps. The guards on posting are in packages/server/src/utils/permissions.ts
 (lines 215-232) and packages/server/src/utils/userBlocks.ts (lines 12-27).

 User ids arrive resolved; a request for an unknown account is refused. The
 Directory is what the users, friends and blocks tables say when the request runs.
 */
module DmGroups {
  import opened Totals

  const MAX_MEMBERS: nat := 10

  /** `members` maps each member to whether the member has closed the channel. */
  datatype Dm = Dm(owner: Option<string>, deleted: bool, members: map<string, bool>)

  type Dms = map<string, Dm>

  /** `deleted` holds the accounts that are tombstones, `blocks` the pairs of a user and whom the user has blocked. */
  datatype Directory = Directory(accounts: set<string>, deleted: set<string>, admins: set<string>,
                                 friends: set<(string, string)>, blocks: set<(string, string)>)

  predicate Friends(dir: Directory, a: string, b: string) {
    (a, b) in dir.friends || (b, a) in dir.friends
  }

  predicate HasBlock(dir: Directory, blocker: string, target: string) {
    blocker != target && (blocker, target) in dir.blocks
  }

  predicate Live(dms: Dms, id: string) {
    id in dms && !dms[id].deleted
  }

  predicate Member(dms: Dms, id: string, user: string) {
    id in dms && user in dms[id].members
  }

  predicate OneOnOne(dm: Dm) {
    dm.owner.None?
  }

  /**
   What the checks of a space invitation found: the body, the target's account
   and the friendship before the space's home is asked, the snapshot it sent, and
   whether the space admits by approval only.
   */
  datatype Invitation = Invitation(wellFormed: bool, known: bool, friends: bool, snapshot: bool, approval: bool)

  datatype Request =
    | OpenDirect(caller: string, target: string)                                // POST /api/dm
    | InviteDirect(caller: string, target: string, invitation: Invitation)      // POST /api/dm/space-invite
    | CreateGroup(caller: string, users: seq<string>, from: Option<string>)     // POST /api/dm/group
    | AddMember(id: string, caller: string, target: string)                     // POST /api/dm/:id/members
    | LeaveGroup(id: string, caller: string)                                    // DELETE /api/dm/:id/members
    | Kick(id: string, caller: string, target: string)                          // DELETE /api/dm/:id/members/:target
    | Transfer(id: string, caller: string, target: string)                      // POST /api/dm/:id/transfer
    | CloseDm(id: string, caller: string)                                       // DELETE /api/dm/:id
    | Post(id: string, caller: string, wellFormed: bool)                        // POST /api/dm/:id/messages

  /** The live two-member channels both users belong to. */
  function Shared(dms: Dms, a: string, b: string): set<string> {
    set id | id in dms && !dms[id].deleted && a in dms[id].members && b in dms[id].members && |dms[id].members.Keys| == 2
  }

  /** The same, group channels skipped. */
  function SharedDirect(dms: Dms, a: string, b: string): set<string> {
    set id | id in Shared(dms, a, b) && OneOnOne(dms[id])
  }

  /** Which of the existing channels a request may hand out: POST /api/dm does not look at the owner. */
  function Reusable(dms: Dms, r: Request): set<string>
    requires r.OpenDirect? || r.InviteDirect?
  {
    if r.OpenDirect? then Shared(dms, r.caller, r.target) else SharedDirect(dms, r.caller, r.target)
  }

  predicate Distinct(users: seq<string>) {
    forall i, j :: 0 <= i < j < |users| ==> users[i] != users[j]
  }

  /** Members of a one-on-one that is being turned into a group need no friendship. */
  function Exempt(dms: Dms, caller: string, from: Option<string>): set<string> {
    if from.Some? && Live(dms, from.value) && OneOnOne(dms[from.value]) && caller in dms[from.value].members
    then dms[from.value].members.Keys else {}
  }

  /** A one-on-one whose every other member is a tombstone is read-only. */
  predicate DeadOneOnOne(dm: Dm, dir: Directory, caller: string) {
    OneOnOne(dm) && dm.members.Keys - {caller} != {} && dm.members.Keys - {caller} <= dir.deleted
  }

  /** A one-on-one with a block in either direction carries no messages. */
  predicate BlockedOneOnOne(dm: Dm, dir: Directory, caller: string) {
    OneOnOne(dm) && exists user :: user in dm.members && user != caller && (HasBlock(dir, user, caller) || HasBlock(dir, caller, user))
  }

  /** The HTTP status each request is answered with, in the order of the checks. */
  function Status(dms: Dms, dir: Directory, r: Request): nat {
    match r
    case OpenDirect(caller, target) =>
      if target !in dir.accounts then 404
      else if target == caller then 400
      else if Shared(dms, caller, target) != {} then 200
      else if caller !in dir.admins && !Friends(dir, caller, target) then 403
      else 201
    case InviteDirect(caller, target, invitation) =>
      if !invitation.wellFormed then 400
      else if !invitation.known then 404
      else if target == caller || !invitation.friends || !invitation.snapshot then 400
      else if invitation.approval then 403
      else 200
    case CreateGroup(caller, users, from) =>
      if |users| < 2 || 1 + |users| > MAX_MEMBERS then 400
      else if exists user :: user in users && user !in dir.accounts - dir.deleted then 404
      else if !Distinct(users) || caller in users then 400
      else if exists user :: user in users && user !in Exempt(dms, caller, from) && !Friends(dir, caller, user) then 403
      else 201
    case AddMember(id, caller, target) =>
      if target !in dir.accounts then 404
      else if !Member(dms, id, caller) then 403
      else if !Live(dms, id) then 404
      else if OneOnOne(dms[id]) then 400
      else if !Friends(dir, caller, target) then 403
      else if target in dms[id].members || |dms[id].members.Keys| >= MAX_MEMBERS then 400
      else 200
    case LeaveGroup(id, caller) =>
      if !Member(dms, id, caller) then 403
      else if !Live(dms, id) then 404
      else if OneOnOne(dms[id]) then 400
      else 200
    case Kick(id, caller, target) =>
      if target !in dir.accounts || !Live(dms, id) then 404
      else if OneOnOne(dms[id]) then 400
      else if dms[id].owner != Some(caller) then 403
      else if target == caller then 400
      else if target !in dms[id].members then 404
      else 200
    case Transfer(id, caller, target) =>
      if target !in dir.accounts || !Live(dms, id) then 404
      else if OneOnOne(dms[id]) then 400
      else if dms[id].owner != Some(caller) then 403
      else if target == caller || target !in dms[id].members then 400
      else 200
    case CloseDm(id, caller) => if !Member(dms, id, caller) then 403 else 200
    case Post(id, caller, wellFormed) =>
      if !Member(dms, id, caller) then 403
      else if DeadOneOnOne(dms[id], dir, caller) || BlockedOneOnOne(dms[id], dir, caller) then 403
      else if !wellFormed then 400
      else 201
  }

  predicate Accepted(dms: Dms, dir: Directory, r: Request) {
    Status(dms, dir, r) < 300
  }

  /** What the row order and the id generator decide: a fresh id, the channel found, the heir of a leaving owner. */
  datatype Choice = Choice(newId: string, found: string, heir: string)

  predicate Possible(dms: Dms, r: Request, ch: Choice) {
    && (r.OpenDirect? || r.InviteDirect? || r.CreateGroup? ==> ch.newId !in dms)
    && ((r.OpenDirect? || r.InviteDirect?) && Reusable(dms, r) != {} ==> ch.found in Reusable(dms, r))
    && (r.LeaveGroup? && r.id in dms && dms[r.id].members.Keys - {r.caller} != {} ==>
          ch.heir in dms[r.id].members && ch.heir != r.caller)
  }

  /** The channel a request is about. */
  function Subject(dms: Dms, r: Request, ch: Choice): string {
    match r
    case OpenDirect(_, _) => if Reusable(dms, r) != {} then ch.found else ch.newId
    case InviteDirect(_, _, _) => if Reusable(dms, r) != {} then ch.found else ch.newId
    case CreateGroup(_, _, _) => ch.newId
    case AddMember(id, _, _) => id
    case LeaveGroup(id, _) => id
    case Kick(id, _, _) => id
    case Transfer(id, _, _) => id
    case CloseDm(id, _) => id
    case Post(id, _, _) => id
  }

  function WithMember(dm: Dm, user: string, closed: bool): Dm {
    dm.(members := dm.members[user := closed])
  }

  function AllOpen(dm: Dm): Dm {
    dm.(members := map user | user in dm.members :: false)
  }

  /** The two-member channel a direct request settles on, its caller's side open. */
  function Direct(dms: Dms, r: Request, ch: Choice): Dm
    requires (r.OpenDirect? || r.InviteDirect?) && Possible(dms, r, ch)
  {
    if Reusable(dms, r) != {} then WithMember(dms[ch.found], r.caller, false)
    else Dm(None, false, map[r.caller := false, r.target := false])
  }

  /** The group without one member; the heir takes over from a leaving owner, an empty group is deleted. */
  function Without(dm: Dm, user: string, leaving: bool, heir: string): Dm {
    var members := dm.members - {user};
    if leaving && members.Keys == {} then Dm(dm.owner, true, members)
    else Dm(if leaving && dm.owner == Some(user) then Some(heir) else dm.owner, dm.deleted, members)
  }

  /** The subject's row after an accepted request. */
  function Row(dms: Dms, dir: Directory, r: Request, ch: Choice): Dm
    requires Accepted(dms, dir, r) && Possible(dms, r, ch)
  {
    match r
    case OpenDirect(_, _) => Direct(dms, r, ch)
    case InviteDirect(_, _, _) => AllOpen(Direct(dms, r, ch))
    case CreateGroup(caller, users, _) => Dm(Some(caller), false, map user | user in [caller] + users :: false)
    case AddMember(id, _, target) => WithMember(dms[id], target, false)
    case LeaveGroup(id, caller) => Without(dms[id], caller, true, ch.heir)
    case Kick(id, _, target) => Without(dms[id], target, false, ch.heir)
    case Transfer(id, _, target) => dms[id].(owner := Some(target))
    case CloseDm(id, caller) => WithMember(dms[id], caller, true)
    case Post(id, _, _) => AllOpen(dms[id])
  }

  function After(dms: Dms, dir: Directory, r: Request, ch: Choice): Dms {
    if Possible(dms, r, ch) && Accepted(dms, dir, r) then dms[Subject(dms, r, ch) := Row(dms, dir, r, ch)] else dms
  }

  // ---------------------------------------------------------------------
  // Structure
  // ---------------------------------------------------------------------

  /** A live group has 1 to 10 members including its owner; a one-on-one is live and has two members. */
  predicate RowFits(dm: Dm) {
    if dm.owner.None? then !dm.deleted && |dm.members.Keys| == 2
    else if dm.deleted then dm.members == map[]
    else dm.owner.value in dm.members && 1 <= |dm.members.Keys| <= MAX_MEMBERS
  }

  ghost predicate Structured(dms: Dms) {
    forall id :: id in dms ==> RowFits(dms[id])
  }

  predicate SamePair(a: Dm, b: Dm) {
    OneOnOne(a) && OneOnOne(b) && a.members.Keys == b.members.Keys
  }

  /** No two one-on-ones join the same two users. */
  ghost predicate PairsUnique(dms: Dms) {
    forall i, j :: i in dms && j in dms && SamePair(dms[i], dms[j]) ==> i == j
  }

  lemma PairHasTwo(a: string, b: string, members: set<string>)
    requires a in members && b in members && a != b && |members| == 2
    ensures members == {a, b}
  {
    var rest := members - {a, b};
    assert members == rest + {a, b} && rest * {a, b} == {};
    assert |members| == |rest| + |{a, b}|;
  }

  lemma {:induction false} ElementsFit(users: seq<string>)
    ensures |set user | user in users| <= |users|
  {
    if users != [] {
      ElementsFit(users[1..]);
      assert (set user | user in users) == (set user | user in users[1..]) + {users[0]};
    }
  }

  lemma RowStaysFit(dms: Dms, dir: Directory, r: Request, ch: Choice)
    requires Structured(dms) && Possible(dms, r, ch) && Accepted(dms, dir, r)
    ensures RowFits(Row(dms, dir, r, ch))
  {
    var row := Row(dms, dir, r, ch);
    match r
    case OpenDirect(_, _) => DirectFits(dms, dir, r, ch);
    case InviteDirect(_, _, _) =>
      DirectFits(dms, dir, r, ch);
      assert row.members.Keys == Direct(dms, r, ch).members.Keys;
    case CreateGroup(caller, users, _) =>
      ElementsFit([caller] + users);
      assert row.members.Keys == set user | user in [caller] + users;
      assert caller in row.members.Keys;
    case AddMember(id, _, target) => assert row.members.Keys == dms[id].members.Keys + {target};
    case LeaveGroup(id, caller) => RemovalFits(dms[id], caller, true, ch.heir);
    case Kick(id, _, target) => RemovalFits(dms[id], target, false, ch.heir);
    case Transfer(_, _, _) =>
    case CloseDm(id, _) => assert row.members.Keys == dms[id].members.Keys;
    case Post(id, _, _) => assert row.members.Keys == dms[id].members.Keys;
  }

  lemma DirectFits(dms: Dms, dir: Directory, r: Request, ch: Choice)
    requires Structured(dms) && Possible(dms, r, ch) && Accepted(dms, dir, r) && (r.OpenDirect? || r.InviteDirect?)
    ensures RowFits(Direct(dms, r, ch))
    ensures Direct(dms, r, ch).members.Keys == {r.caller, r.target}
  {
    assert r.caller != r.target;
    hide Status;
    var dm := Direct(dms, r, ch);
    if Reusable(dms, r) != {} {
      assert ch.found in Shared(dms, r.caller, r.target);
      hide Possible, Reusable;
      assert RowFits(dms[ch.found]) && r.target in dms[ch.found].members.Keys;
      assert dm.members.Keys == dms[ch.found].members.Keys;
      PairHasTwo(r.caller, r.target, dm.members.Keys);
    } else {
      assert dm.members.Keys == {r.caller, r.target};
    }
  }

  lemma RemovalFits(dm: Dm, user: string, leaving: bool, heir: string)
    requires RowFits(dm) && dm.owner.Some? && !dm.deleted && user in dm.members
    requires leaving || dm.owner != Some(user)
    requires leaving && dm.members.Keys - {user} != {} ==> heir in dm.members && heir != user
    ensures RowFits(Without(dm, user, leaving, heir))
  {
  }

  lemma StepKeepsStructure(dms: Dms, dir: Directory, r: Request, ch: Choice)
    requires Structured(dms) && Possible(dms, r, ch)
    ensures Structured(After(dms, dir, r, ch))
  {
    hide RowFits, Row, Status, Possible;
    if Accepted(dms, dir, r) {
      RowStaysFit(dms, dir, r, ch);
    }
  }

  /** The two members of a one-on-one are the same before and after every request, and it never becomes a group. */
  lemma StepKeepsOneOnOnes(dms: Dms, dir: Directory, r: Request, ch: Choice, id: string)
    requires Structured(dms) && Possible(dms, r, ch) && id in dms
    ensures id in After(dms, dir, r, ch)
    ensures OneOnOne(After(dms, dir, r, ch)[id]) <==> OneOnOne(dms[id])
    ensures OneOnOne(dms[id]) ==> After(dms, dir, r, ch)[id].members.Keys == dms[id].members.Keys
  {
  }

  /** A new one-on-one is made only for a pair that has none. */
  lemma NewPairIsNew(dms: Dms, dir: Directory, r: Request, ch: Choice, other: string)
    requires Structured(dms) && Possible(dms, r, ch) && Accepted(dms, dir, r)
    requires Subject(dms, r, ch) !in dms && other in dms
    ensures !SamePair(Row(dms, dir, r, ch), dms[other])
  {
    if (r.OpenDirect? || r.InviteDirect?) && OneOnOne(dms[other]) {
      DirectFits(dms, dir, r, ch);
      assert Row(dms, dir, r, ch).members.Keys == {r.caller, r.target};
      assert r.caller in {r.caller, r.target} && r.target in {r.caller, r.target};
      assert other !in Reusable(dms, r);
    }
  }

  lemma StepKeepsPairs(dms: Dms, dir: Directory, r: Request, ch: Choice)
    requires Structured(dms) && PairsUnique(dms) && Possible(dms, r, ch)
    ensures PairsUnique(After(dms, dir, r, ch))
  {
    hide Structured, Possible, Status, Row, Subject, OneOnOne, Live, Member;
    if Accepted(dms, dir, r) {
      var after, made := After(dms, dir, r, ch), Subject(dms, r, ch);
      forall i, j | i in after && j in after && SamePair(after[i], after[j]) ensures i == j {
        if made !in dms {
          if i != made && j == made {
            NewPairIsNew(dms, dir, r, ch, i);
          } else if i == made && j != made {
            NewPairIsNew(dms, dir, r, ch, j);
          }
        } else {
          StepKeepsOneOnOnes(dms, dir, r, ch, i);
          StepKeepsOneOnOnes(dms, dir, r, ch, j);
          assert SamePair(dms[i], dms[j]);
        }
      }
    }
  }

  /** Refused requests change nothing, and an accepted one changes at most the channel it is about. */
  lemma OtherChannelsUntouched(dms: Dms, dir: Directory, r: Request, ch: Choice, id: string)
    requires Possible(dms, r, ch) && id in dms
    requires Accepted(dms, dir, r) ==> id != Subject(dms, r, ch)
    ensures id in After(dms, dir, r, ch) && After(dms, dir, r, ch)[id] == dms[id]
  {
  }

  /** The owner transfers the group to the member `user`, or leaves. */
  predicate HandsOver(dms: Dms, r: Request, id: string, user: string) {
    && Live(dms, id) && dms[id].owner.Some? && dms[id].owner != Some(user) && user in dms[id].members
    && (r == Request.Transfer(id, dms[id].owner.value, user) || r == Request.LeaveGroup(id, dms[id].owner.value))
  }

  /** `user` leaves, or the owner, who is someone else, kicks `user`. */
  predicate TakesOut(dms: Dms, r: Request, id: string, user: string) {
    && Live(dms, id) && dms[id].owner.Some? && user in dms[id].members
    && (r == Request.LeaveGroup(id, user) || (r == Request.Kick(id, dms[id].owner.value, user) && dms[id].owner != Some(user)))
  }

  /** A member adds a friend while there is room. */
  predicate BringsIn(dms: Dms, dir: Directory, r: Request, id: string, user: string) {
    && Live(dms, id) && r.AddMember? && r.id == id && r.target == user && user !in dms[id].members
    && r.caller in dms[id].members && Friends(dir, r.caller, user) && |dms[id].members.Keys| < MAX_MEMBERS
  }

  lemma GroupChangesAreAuthorized(dms: Dms, dir: Directory, r: Request, ch: Choice, id: string, user: string)
    requires Structured(dms) && Possible(dms, r, ch) && id in dms && !OneOnOne(dms[id])
    ensures var (was, now) := (dms[id], After(dms, dir, r, ch)[id]);
            && (now.owner == Some(user) && was.owner != Some(user) ==> HandsOver(dms, r, id, user))
            && (user in was.members && user !in now.members ==> TakesOut(dms, r, id, user))
            && (user !in was.members && user in now.members ==> BringsIn(dms, dir, r, id, user))
  {
    hide Friends, Distinct, Exempt, DeadOneOnOne, BlockedOneOnOne;
  }

  // ---------------------------------------------------------------------
  // Whole runs
  // ---------------------------------------------------------------------

  datatype Step = Step(dir: Directory, request: Request, choice: Choice)

  ghost function DmsAfter(start: Dms, run: seq<Step>): Dms {
    if run == [] then start
    else
      var n := |run| - 1;
      After(DmsAfter(start, run[..n]), run[n].dir, run[n].request, run[n].choice)
  }

  /** Every id generated is fresh, and every row picked is one of the matching rows. */
  ghost predicate Running(start: Dms, run: seq<Step>) {
    run != [] ==>
      var n := |run| - 1;
      Running(start, run[..n]) && Possible(DmsAfter(start, run[..n]), run[n].request, run[n].choice)
  }

  /**
   On every run from an empty server: live groups have 1 to 10 members and
   contain their owner, one-on-ones have two members, and no pair of users has
   two one-on-ones, whichever of the two creation paths was used.
   */
  lemma {:induction false} EveryRunIsStructured(start: Dms, run: seq<Step>)
    requires Structured(start) && PairsUnique(start) && Running(start, run)
    ensures Structured(DmsAfter(start, run)) && PairsUnique(DmsAfter(start, run))
  {
    hide Structured, PairsUnique, After;
    if run != [] {
      var n := |run| - 1;
      EveryRunIsStructured(start, run[..n]);
      var dms := DmsAfter(start, run[..n]);
      StepKeepsStructure(dms, run[n].dir, run[n].request, run[n].choice);
      StepKeepsPairs(dms, run[n].dir, run[n].request, run[n].choice);
    }
  }

  lemma EmptyIsStructured()
    ensures Structured(map[]) && PairsUnique(map[]) && Running(map[], [])
  {
  }

  /** Over any run, a one-on-one keeps exactly the two members it had. */
  lemma {:induction false} OneOnOneIsForever(start: Dms, run: seq<Step>, id: string)
    requires Structured(start) && PairsUnique(start) && Running(start, run)
    requires id in start && OneOnOne(start[id])
    ensures id in DmsAfter(start, run) && OneOnOne(DmsAfter(start, run)[id])
    ensures DmsAfter(start, run)[id].members.Keys == start[id].members.Keys
  {
    hide Structured, PairsUnique, After;
    if run != [] {
      var n := |run| - 1;
      OneOnOneIsForever(start, run[..n], id);
      EveryRunIsStructured(start, run[..n]);
      StepKeepsOneOnOnes(DmsAfter(start, run[..n]), run[n].dir, run[n].request, run[n].choice, id);
    }
  }

  /**
   Who may change a group over any run: whoever owns it at the end and did not
   at the start was handed it, whoever is no longer a member left or was kicked
   by the owner, and whoever became a member was added as a member's friend.
   */
  lemma {:induction false} GroupRunIsAuthorized(start: Dms, run: seq<Step>, id: string, user: string)
    requires Structured(start) && PairsUnique(start) && Running(start, run) && id in start && !OneOnOne(start[id])
    ensures id in DmsAfter(start, run)
    ensures var (was, now) := (start[id], DmsAfter(start, run)[id]);
            && (now.owner == Some(user) && was.owner != Some(user) ==>
                  exists k: nat :: k < |run| && HandsOver(DmsAfter(start, run[..k]), run[k].request, id, user))
            && (user in was.members && user !in now.members ==>
                  exists k: nat :: k < |run| && TakesOut(DmsAfter(start, run[..k]), run[k].request, id, user))
            && (user !in was.members && user in now.members ==>
                  exists k: nat :: k < |run| && BringsIn(DmsAfter(start, run[..k]), run[k].dir, run[k].request, id, user))
  {
    hide Structured, PairsUnique, After, Possible, HandsOver, TakesOut, BringsIn;
    if run != [] {
      var n := |run| - 1;
      var before, step := DmsAfter(start, run[..n]), run[n];
      GroupRunIsAuthorized(start, run[..n], id, user);
      EveryRunIsStructured(start, run[..n]);
      GroupStaysGroup(start, run[..n], id);
      GroupChangesAreAuthorized(before, step.dir, step.request, step.choice, id, user);
      StepKeepsOneOnOnes(before, step.dir, step.request, step.choice, id);
      assert forall k: nat :: k < n ==> run[..n][..k] == run[..k];
    }
  }

  lemma {:induction false} GroupStaysGroup(start: Dms, run: seq<Step>, id: string)
    requires Structured(start) && PairsUnique(start) && Running(start, run) && id in start
    ensures id in DmsAfter(start, run) && (OneOnOne(DmsAfter(start, run)[id]) <==> OneOnOne(start[id]))
  {
    hide Structured, PairsUnique, After, OneOnOne, Possible;
    if run != [] {
      var n := |run| - 1;
      GroupStaysGroup(start, run[..n], id);
      EveryRunIsStructured(start, run[..n]);
      StepKeepsOneOnOnes(DmsAfter(start, run[..n]), run[n].dir, run[n].request, run[n].choice, id);
    }
  }

  /**
   POST /api/dm is sure to answer with a one-on-one exactly when the two users
   share no live two-member group; the space-invite path always does.
   */
  lemma OpensOneOnOneIff(dms: Dms, dir: Directory, r: Request)
    requires Structured(dms) && Accepted(dms, dir, r) && (r.OpenDirect? || r.InviteDirect?)
    requires exists ch :: Possible(dms, r, ch)
    ensures (forall ch :: Possible(dms, r, ch) ==> OneOnOne(Row(dms, dir, r, ch)))
       <==> r.InviteDirect? || forall id :: id in Shared(dms, r.caller, r.target) ==> OneOnOne(dms[id])
  {
    var some :| Possible(dms, r, some);
    if r.OpenDirect? && exists id :: id in Shared(dms, r.caller, r.target) && !OneOnOne(dms[id]) {
      var id :| id in Shared(dms, r.caller, r.target) && !OneOnOne(dms[id]);
      var ch := some.(found := id);
      assert Possible(dms, r, ch) && !OneOnOne(Row(dms, dir, r, ch));
    }
  }

  // ---------------------------------------------------------------------
  // A group of two handed out as a direct message
  // ---------------------------------------------------------------------

  /** Three users, the first a friend of the other two, who creates a group with them. */
  const TRIO := Directory({"a", "b", "c"}, {}, {}, {("a", "b"), ("a", "c")}, {})
  const TRIO_CREATION := Step(TRIO, CreateGroup("a", ["b", "c"], None), Choice("g", "g", "g"))
  const TRIO_GROUP: Dms := map["g" := Dm(Some("a"), false, map["a" := false, "b" := false, "c" := false])]

  lemma TrioCreated()
    ensures Running(map[], [TRIO_CREATION]) && DmsAfter(map[], [TRIO_CREATION]) == TRIO_GROUP
  {
    var r := TRIO_CREATION.request;
    assert [TRIO_CREATION][..0] == [];
    assert Distinct(r.users);
    assert Status(map[], TRIO, r) == 201;
    assert forall user :: user in ["a"] + r.users <==> user in {"a", "b", "c"};
    assert (map user | user in ["a"] + r.users :: false) == map["a" := false, "b" := false, "c" := false];
  }

  /** One more step of a run. */
  lemma RunMore(start: Dms, run: seq<Step>, step: Step)
    requires Running(start, run) && Possible(DmsAfter(start, run), step.request, step.choice)
    ensures Running(start, run + [step])
    ensures DmsAfter(start, run + [step]) == After(DmsAfter(start, run), step.dir, step.request, step.choice)
  {
  }

  const PAIR_GROUP: Dms := map["g" := Dm(Some("a"), false, map["a" := false, "b" := false])]

  lemma TrioLeft()
    ensures var (r, ch) := (Request.LeaveGroup("g", "c"), Choice("g", "g", "a"));
            Possible(TRIO_GROUP, r, ch) && After(TRIO_GROUP, TRIO, r, ch) == PAIR_GROUP
  {
    assert TRIO_GROUP["g"].members - {"c"} == PAIR_GROUP["g"].members;
  }

  lemma PairOpens()
    ensures var (r, ch) := (Request.OpenDirect("a", "b"), Choice("h", "g", "h"));
            && Possible(PAIR_GROUP, r, ch) && Status(PAIR_GROUP, TRIO, r) == 200
            && Subject(PAIR_GROUP, r, ch) == "g" && After(PAIR_GROUP, TRIO, r, ch) == PAIR_GROUP
  {
    assert PAIR_GROUP["g"].members.Keys == {"a", "b"};
    assert Shared(PAIR_GROUP, "a", "b") == {"g"};
    assert WithMember(PAIR_GROUP["g"], "a", false).members == PAIR_GROUP["g"].members;
  }

  /**
   A creates a group with b and c, c leaves, and a opens a direct message with b:
   the answer is the group, although the two have no one-on-one.
   */
  lemma GroupOpensAsDirect()
    ensures var before := [TRIO_CREATION, Step(TRIO, LeaveGroup("g", "c"), Choice("g", "g", "a"))];
            var open := Step(TRIO, OpenDirect("a", "b"), Choice("h", "g", "h"));
            var dms := DmsAfter(map[], before);
            && Running(map[], before + [open])
            && Status(dms, TRIO, open.request) == 200 && Subject(dms, open.request, open.choice) == "g"
            && (forall id :: id in dms ==> !OneOnOne(dms[id])) && DmsAfter(map[], before + [open]) == dms
  {
    hide Possible, Status, After, Subject;
    var leave := Step(TRIO, LeaveGroup("g", "c"), Choice("g", "g", "a"));
    TrioCreated();
    TrioLeft();
    PairOpens();
    RunMore(map[], [TRIO_CREATION], leave);
    assert [TRIO_CREATION] + [leave] == [TRIO_CREATION, leave];
    RunMore(map[], [TRIO_CREATION, leave], Step(TRIO, OpenDirect("a", "b"), Choice("h", "g", "h")));
  }
}
