/**
 What the direct-message requests of DmGroups answer and do, read off the tables,
 the user's list and the messages that arrive
 (packages/server/src/routes/dm.ts, lines 194-261, 926-1455, 1716-2245, 2363-2487
 and 2490-2580).
 */
module DmOutcomes {
  import opened Totals
  import opened DmGroups
  import opened DmMirror

  // ---------------------------------------------------------------------
  // Which requests are accepted
  // ---------------------------------------------------------------------

  /** A live channel with exactly these two members. */
  predicate JoinsPair(dms: Dms, id: string, a: string, b: string) {
    id in dms && !dms[id].deleted && dms[id].members.Keys == {a, b}
  }

  predicate AreFriends(dir: Directory, a: string, b: string) {
    (a, b) in dir.friends || (b, a) in dir.friends
  }

  /** Every user of the list exists and is no tombstone, none is the caller, none comes twice. */
  predicate GoodList(dir: Directory, caller: string, users: seq<string>) {
    && 2 <= |users| <= 9
    && (forall i :: 0 <= i < |users| ==> users[i] in dir.accounts && users[i] !in dir.deleted && users[i] != caller)
    && (forall i, j :: 0 <= i < j < |users| ==> users[i] != users[j])
  }

  lemma SharedIsPair(dms: Dms, a: string, b: string)
    requires a != b
    ensures Shared(dms, a, b) == set id | id in dms && JoinsPair(dms, id, a, b)
  {
    forall id | id in Shared(dms, a, b) ensures JoinsPair(dms, id, a, b) {
      PairHasTwo(a, b, dms[id].members.Keys);
    }
    forall id | JoinsPair(dms, id, a, b) ensures id in Shared(dms, a, b) {
      assert |{a, b}| == 2;
    }
  }

  /** Opening a direct message: an account other than the caller's, known from a two-member channel, or befriended, or an admin asks. */
  lemma OpenAcceptedIff(dms: Dms, dir: Directory, r: Request)
    requires r.OpenDirect?
    ensures Accepted(dms, dir, r) <==>
            && r.target in dir.accounts && r.target != r.caller
            && ((exists id :: JoinsPair(dms, id, r.caller, r.target)) || AreFriends(dir, r.caller, r.target) || r.caller in dir.admins)
    ensures Status(dms, dir, r) == 404 <==> r.target !in dir.accounts
    ensures Status(dms, dir, r) == 201 <==> Accepted(dms, dir, r) && forall id :: !JoinsPair(dms, id, r.caller, r.target)
  {
    if r.target != r.caller {
      SharedIsPair(dms, r.caller, r.target);
      var pair := set id | id in dms && JoinsPair(dms, id, r.caller, r.target);
      assert pair != {} <==> exists id :: JoinsPair(dms, id, r.caller, r.target) by {
        if id :| JoinsPair(dms, id, r.caller, r.target) {
          assert id in pair;
        }
      }
    }
  }

  /** A group: two to nine good users, each a friend of the caller or with the caller in the one-on-one it grows from. */
  lemma CreateAcceptedIff(dms: Dms, dir: Directory, r: Request)
    requires r.CreateGroup?
    ensures Accepted(dms, dir, r) <==>
            && GoodList(dir, r.caller, r.users)
            && forall user :: user in r.users ==>
                 || AreFriends(dir, r.caller, user)
                 || (r.from.Some? && r.from.value in dms && !dms[r.from.value].deleted && dms[r.from.value].owner.None?
                     && r.caller in dms[r.from.value].members && user in dms[r.from.value].members)
  {
    DistinctMeans(r.users);
    hide Distinct;
    assert forall i :: 0 <= i < |r.users| ==> r.users[i] in r.users;
    var users, exempt := r.users, Exempt(dms, r.caller, r.from);
    assert forall user :: user in exempt ==> user in dms[r.from.value].members;
  }

  lemma DistinctMeans(users: seq<string>)
    ensures Distinct(users) <==> forall i, j :: 0 <= i < j < |users| ==> users[i] != users[j]
  {
  }

  /** The requests about an existing channel. */
  lemma AcceptedIff(dms: Dms, dir: Directory, r: Request)
    ensures r.InviteDirect? ==>
              (Accepted(dms, dir, r) <==>
                 && r.invitation.wellFormed && r.invitation.known && r.target != r.caller && r.invitation.friends
                 && r.invitation.snapshot && !r.invitation.approval)
    ensures r.AddMember? ==>
              (Accepted(dms, dir, r) <==>
                 && r.target in dir.accounts && r.id in dms && !dms[r.id].deleted && dms[r.id].owner.Some?
                 && r.caller in dms[r.id].members && r.target !in dms[r.id].members && |dms[r.id].members.Keys| < 10
                 && AreFriends(dir, r.caller, r.target))
    ensures r.LeaveGroup? ==>
              (Accepted(dms, dir, r) <==> r.id in dms && !dms[r.id].deleted && dms[r.id].owner.Some? && r.caller in dms[r.id].members)
    ensures r.Kick? || r.Transfer? ==>
              (Accepted(dms, dir, r) <==>
                 && r.target in dir.accounts && r.id in dms && !dms[r.id].deleted && dms[r.id].owner == Some(r.caller)
                 && r.target != r.caller && r.target in dms[r.id].members)
    ensures r.CloseDm? ==> (Accepted(dms, dir, r) <==> r.id in dms && r.caller in dms[r.id].members)
    ensures r.Post? ==>
              (Accepted(dms, dir, r) <==>
                 && r.id in dms && r.caller in dms[r.id].members && r.wellFormed
                 && (dms[r.id].owner.None? ==>
                       && (forall user :: user in dms[r.id].members && user != r.caller ==>
                             (user, r.caller) !in dir.blocks && (r.caller, user) !in dir.blocks)
                       && (dms[r.id].members.Keys == {r.caller} || exists user :: user in dms[r.id].members && user != r.caller && user !in dir.deleted)))
  {
    if r.Post? && r.id in dms && r.caller in dms[r.id].members {
      var others := dms[r.id].members.Keys - {r.caller};
      assert others == {} <==> dms[r.id].members.Keys == {r.caller};
      assert !(others <= dir.deleted) <==> exists user :: user in others && user !in dir.deleted;
    }
  }

  /** A refusal with 404 means that the account, the channel or the member is not there. */
  lemma NotFoundMeans(dms: Dms, dir: Directory, r: Request)
    requires Status(dms, dir, r) == 404
    ensures match r
            case OpenDirect(_, target) => target !in dir.accounts
            case InviteDirect(_, _, invitation) => !invitation.known
            case CreateGroup(_, users, _) => exists user :: user in users && (user !in dir.accounts || user in dir.deleted)
            case AddMember(id, _, target) => target !in dir.accounts || dms[id].deleted
            case LeaveGroup(id, _) => dms[id].deleted
            case Kick(id, _, target) => target !in dir.accounts || id !in dms || dms[id].deleted || target !in dms[id].members
            case Transfer(id, _, target) => target !in dir.accounts || id !in dms || dms[id].deleted
            case CloseDm(_, _) => false
            case Post(_, _, _) => false
  {
  }

  // ---------------------------------------------------------------------
  // What an accepted request leaves
  // ---------------------------------------------------------------------

  /** Refused requests change nothing. */
  lemma RefusedChangesNothing(dms: Dms, dir: Directory, r: Request, ch: Choice)
    requires !Accepted(dms, dir, r)
    ensures After(dms, dir, r, ch) == dms
  {
  }

  /** A direct message ends with a live channel of exactly the two, open for the caller. */
  lemma DirectLeaves(dms: Dms, dir: Directory, r: Request, ch: Choice)
    requires Structured(dms) && Possible(dms, r, ch) && Accepted(dms, dir, r) && (r.OpenDirect? || r.InviteDirect?)
    ensures JoinsPair(After(dms, dir, r, ch), Subject(dms, r, ch), r.caller, r.target)
    ensures !After(dms, dir, r, ch)[Subject(dms, r, ch)].members[r.caller]
    ensures Subject(dms, r, ch) in dms ==>
              && JoinsPair(dms, Subject(dms, r, ch), r.caller, r.target)
              && After(dms, dir, r, ch)[Subject(dms, r, ch)].owner == dms[Subject(dms, r, ch)].owner
    ensures Subject(dms, r, ch) !in dms ==> After(dms, dir, r, ch)[Subject(dms, r, ch)].owner.None?
  {
    DirectFits(dms, dir, r, ch);
    assert r.caller in {r.caller, r.target} && r.target in {r.caller, r.target};
    var direct := Direct(dms, r, ch);
    FoundJoinsPair(dms, dir, r, ch);
    hide Structured, RowFits, Possible, Status, Shared, SharedDirect, Reusable;
    assert AllOpen(direct).members.Keys == direct.members.Keys;
  }

  lemma FoundJoinsPair(dms: Dms, dir: Directory, r: Request, ch: Choice)
    requires Possible(dms, r, ch) && Accepted(dms, dir, r) && (r.OpenDirect? || r.InviteDirect?)
    ensures r.caller != r.target && (Subject(dms, r, ch) in dms <==> Reusable(dms, r) != {})
    ensures Reusable(dms, r) != {} ==> ch.found == Subject(dms, r, ch) && JoinsPair(dms, ch.found, r.caller, r.target)
  {
    assert r.caller != r.target;
    hide Status;
    SharedIsPair(dms, r.caller, r.target);
  }

  /** An opened channel stays as it was for the target; a new one, and an invitation's, is open for both. */
  lemma DirectForTarget(dms: Dms, dir: Directory, r: Request, ch: Choice)
    requires Structured(dms) && Possible(dms, r, ch) && Accepted(dms, dir, r) && (r.OpenDirect? || r.InviteDirect?)
    ensures var members := After(dms, dir, r, ch)[Subject(dms, r, ch)].members;
            r.target in members &&
            (members[r.target] <==> r.OpenDirect? && Subject(dms, r, ch) in dms && dms[Subject(dms, r, ch)].members[r.target])
    ensures r.InviteDirect? ==> After(dms, dir, r, ch)[Subject(dms, r, ch)].owner.None?
  {
    DirectLeaves(dms, dir, r, ch);
    assert r.target in {r.caller, r.target};
    FoundJoinsPair(dms, dir, r, ch);
    assert r.InviteDirect? && Reusable(dms, r) != {} ==> ch.found in SharedDirect(dms, r.caller, r.target);
    hide Structured, RowFits, Possible, Status, Shared, Reusable;
  }

  /** A new group: owned by the caller, whose members are the caller and the listed users, all open. */
  lemma CreationLeaves(dms: Dms, dir: Directory, r: Request, ch: Choice)
    requires Possible(dms, r, ch) && Accepted(dms, dir, r) && r.CreateGroup?
    ensures var t := After(dms, dir, r, ch);
            && t.Keys == dms.Keys + {ch.newId} && (forall other :: other in dms ==> t[other] == dms[other])
            && t[ch.newId].owner == Some(r.caller) && !t[ch.newId].deleted
            && (forall user :: user in t[ch.newId].members <==> user == r.caller || user in r.users)
            && (forall user :: user in t[ch.newId].members ==> !t[ch.newId].members[user])
  {
    hide Status;
    assert forall user :: user in [r.caller] + r.users <==> user == r.caller || user in r.users;
  }

  /** Everything else happens to one row; what a row can have changed is said field by field. */
  lemma RowLeaves(dms: Dms, dir: Directory, r: Request, ch: Choice)
    requires Structured(dms) && Possible(dms, r, ch) && Accepted(dms, dir, r)
    requires !r.OpenDirect? && !r.InviteDirect? && !r.CreateGroup?
    ensures var t := After(dms, dir, r, ch);
            t.Keys == dms.Keys && forall other :: other in dms && other != r.id ==> t[other] == dms[other]
    ensures var (was, now) := (dms[r.id], After(dms, dir, r, ch)[r.id]);
            match r
            case AddMember(_, _, target) =>
              now.owner == was.owner && !now.deleted && now.members == was.members[target := false]
            case LeaveGroup(_, caller) =>
              && now.members == was.members - {caller}
              && (now.deleted <==> was.members.Keys == {caller})
              && (was.owner != Some(caller) || now.deleted ==> now.owner == was.owner)
              && (was.owner == Some(caller) && !now.deleted ==> now.owner.Some? && now.owner.value in now.members)
            case Kick(_, _, target) =>
              now.owner == was.owner && !now.deleted && now.members == was.members - {target}
            case Transfer(_, _, target) =>
              now.owner == Some(target) && !now.deleted && now.members == was.members
            case CloseDm(_, caller) =>
              now.owner == was.owner && now.deleted == was.deleted && now.members == was.members[caller := true]
            case Post(_, _, _) =>
              && now.owner == was.owner && now.deleted == was.deleted && now.members.Keys == was.members.Keys
              && forall user :: user in now.members ==> !now.members[user]
  {
    hide Friends, Distinct, Exempt, DeadOneOnOne, BlockedOneOnOne, SharedDirect;
    if r.LeaveGroup? {
      var was := dms[r.id];
      assert (was.members - {r.caller}).Keys == was.members.Keys - {r.caller};
      assert was.members.Keys - {r.caller} == {} <==> was.members.Keys == {r.caller};
    }
  }

  // ---------------------------------------------------------------------
  // Owners and members over whole runs
  // ---------------------------------------------------------------------

  /** The step hands the group to `user`; a leaving owner is succeeded by the chosen heir. */
  predicate Hands(dms: Dms, step: Step, id: string, user: string) {
    && Accepted(dms, step.dir, step.request) && HandsOver(dms, step.request, id, user)
    && (step.request.LeaveGroup? ==> step.choice.heir == user)
  }

  predicate Brings(dms: Dms, step: Step, id: string, user: string) {
    Accepted(dms, step.dir, step.request) && BringsIn(dms, step.dir, step.request, id, user)
  }

  predicate Takes(dms: Dms, step: Step, id: string, user: string) {
    Accepted(dms, step.dir, step.request) && TakesOut(dms, step.request, id, user)
  }

  /** One step of a group: the owner and the members change exactly by these requests. */
  lemma GroupChangesIff(dms: Dms, step: Step, id: string, user: string)
    requires Structured(dms) && Possible(dms, step.request, step.choice) && id in dms && !OneOnOne(dms[id])
    ensures var (was, now) := (dms[id], After(dms, step.dir, step.request, step.choice)[id]);
            && (now.owner == Some(user) && was.owner != Some(user) <==> Hands(dms, step, id, user))
            && (user !in was.members && user in now.members <==> Brings(dms, step, id, user))
            && (user in was.members && user !in now.members <==> Takes(dms, step, id, user))
  {
    GroupChangesAreAuthorized(dms, step.dir, step.request, step.choice, id, user);
    hide Friends, Distinct, Exempt, DeadOneOnOne, BlockedOneOnOne, RowFits;
  }

  /** The step hands the group to someone. */
  ghost predicate HandsOn(dms: Dms, step: Step, id: string) {
    exists user :: Hands(dms, step, id, user)
  }

  lemma OwnerStep(dms: Dms, step: Step, id: string, user: string)
    requires Structured(dms) && Possible(dms, step.request, step.choice) && id in dms && !OneOnOne(dms[id])
    ensures id in After(dms, step.dir, step.request, step.choice)
    ensures After(dms, step.dir, step.request, step.choice)[id].owner == Some(user)
       <==> Hands(dms, step, id, user) || (!HandsOn(dms, step, id) && dms[id].owner == Some(user))
  {
    StepKeepsOneOnOnes(dms, step.dir, step.request, step.choice, id);
    var now := After(dms, step.dir, step.request, step.choice)[id];
    GroupChangesIff(dms, step, id, user);
    GroupChangesIff(dms, step, id, now.owner.value);
    forall other ensures Hands(dms, step, id, other) ==> now.owner == Some(other) {
      GroupChangesIff(dms, step, id, other);
    }
    hide Hands, After, Possible, Structured;
  }

  /** The state before the step at `k`. */
  ghost function Before(start: Dms, run: seq<Step>, k: nat): Dms
    requires k < |run|
  {
    DmsAfter(start, run[..k])
  }

  lemma BeforeInPrefix(start: Dms, run: seq<Step>, k: nat)
    requires k < |run| - 1
    ensures Before(start, run[..|run| - 1], k) == Before(start, run, k)
  {
    assert run[..|run| - 1][..k] == run[..k];
  }

  /** Over any run, whoever the group was handed to last owns it. */
  lemma {:induction false} OwnerIsLastHanded(start: Dms, run: seq<Step>, k: nat, id: string, user: string)
    requires Structured(start) && PairsUnique(start) && Running(start, run) && id in start && !OneOnOne(start[id])
    requires k < |run| && Hands(Before(start, run, k), run[k], id, user)
    requires forall j :: k < j < |run| ==> !HandsOn(Before(start, run, j), run[j], id)
    ensures id in DmsAfter(start, run) && DmsAfter(start, run)[id].owner == Some(user)
  {
    hide Structured, PairsUnique, After, Possible, HandsOn, Hands;
    var n := |run| - 1;
    EveryRunIsStructured(start, run[..n]);
    GroupStaysGroup(start, run[..n], id);
    OwnerStep(Before(start, run, n), run[n], id, user);
    if k < n {
      forall j | k <= j < n ensures Before(start, run[..n], j) == Before(start, run, j) {
        BeforeInPrefix(start, run, j);
      }
      OwnerIsLastHanded(start, run[..n], k, id, user);
    }
  }

  /** Over any run without a hand-over, the owner stays. */
  lemma {:induction false} OwnerStays(start: Dms, run: seq<Step>, id: string, user: string)
    requires Structured(start) && PairsUnique(start) && Running(start, run) && id in start && start[id].owner == Some(user)
    requires forall j: nat :: j < |run| ==> !HandsOn(Before(start, run, j), run[j], id)
    ensures id in DmsAfter(start, run) && DmsAfter(start, run)[id].owner == Some(user)
  {
    hide Structured, PairsUnique, After, Possible, HandsOn, Hands;
    if run != [] {
      var n := |run| - 1;
      EveryRunIsStructured(start, run[..n]);
      GroupStaysGroup(start, run[..n], id);
      OwnerStep(Before(start, run, n), run[n], id, user);
      forall j: nat | j < n ensures Before(start, run[..n], j) == Before(start, run, j) {
        BeforeInPrefix(start, run, j);
      }
      OwnerStays(start, run[..n], id, user);
    }
  }

  /** Over any run, whoever was brought in and not taken out since is a member. */
  lemma {:induction false} BroughtInIsMember(start: Dms, run: seq<Step>, k: nat, id: string, user: string)
    requires Structured(start) && PairsUnique(start) && Running(start, run) && id in start && !OneOnOne(start[id])
    requires k < |run| && Brings(Before(start, run, k), run[k], id, user)
    requires forall j :: k < j < |run| ==> !Takes(Before(start, run, j), run[j], id, user)
    ensures id in DmsAfter(start, run) && user in DmsAfter(start, run)[id].members
  {
    hide Structured, PairsUnique, After, Possible, Brings, Takes;
    var n := |run| - 1;
    EveryRunIsStructured(start, run[..n]);
    GroupStaysGroup(start, run[..n], id);
    StepKeepsOneOnOnes(Before(start, run, n), run[n].dir, run[n].request, run[n].choice, id);
    GroupChangesIff(Before(start, run, n), run[n], id, user);
    if k < n {
      forall j | k <= j < n ensures Before(start, run[..n], j) == Before(start, run, j) {
        BeforeInPrefix(start, run, j);
      }
      BroughtInIsMember(start, run[..n], k, id, user);
    }
  }

  /** Over any run, whoever was taken out and not brought in since is no member. */
  lemma {:induction false} TakenOutIsNoMember(start: Dms, run: seq<Step>, k: nat, id: string, user: string)
    requires Structured(start) && PairsUnique(start) && Running(start, run) && id in start && !OneOnOne(start[id])
    requires k < |run| && Takes(Before(start, run, k), run[k], id, user)
    requires forall j :: k < j < |run| ==> !Brings(Before(start, run, j), run[j], id, user)
    ensures id in DmsAfter(start, run) && user !in DmsAfter(start, run)[id].members
  {
    hide Structured, PairsUnique, After, Possible, Brings, Takes;
    var n := |run| - 1;
    EveryRunIsStructured(start, run[..n]);
    GroupStaysGroup(start, run[..n], id);
    StepKeepsOneOnOnes(Before(start, run, n), run[n].dir, run[n].request, run[n].choice, id);
    GroupChangesIff(Before(start, run, n), run[n], id, user);
    if k < n {
      forall j | k <= j < n ensures Before(start, run[..n], j) == Before(start, run, j) {
        BeforeInPrefix(start, run, j);
      }
      TakenOutIsNoMember(start, run[..n], k, id, user);
    }
  }

  // ---------------------------------------------------------------------
  // What arrives
  // ---------------------------------------------------------------------

  /** How many of the events are messages in this channel by this author. */
  function Notices(events: seq<DmEvent>, id: string, author: string): nat {
    if events == [] then 0
    else
      var n := |events| - 1;
      Notices(events[..n], id, author) + if events[n] == Message(id, author) then 1 else 0
  }

  lemma {:induction false} NoticesMore(xs: seq<DmEvent>, ys: seq<DmEvent>, id: string, author: string)
    ensures Notices(xs + ys, id, author) == Notices(xs, id, author) + Notices(ys, id, author)
  {
    if ys == [] {
      assert xs + ys == xs;
    } else {
      assert (xs + ys)[..|xs + ys| - 1] == xs + ys[..|ys| - 1];
      NoticesMore(xs, ys[..|ys| - 1], id, author);
    }
  }

  lemma ShortNotices(a: DmEvent, b: DmEvent, c: DmEvent, d: DmEvent, id: string, author: string)
    ensures Notices([], id, author) == 0
    ensures Notices([a], id, author) == if a == Message(id, author) then 1 else 0
    ensures Notices([a, b], id, author) == Notices([a], id, author) + Notices([b], id, author)
    ensures Notices([a, b, c, d], id, author) == Notices([a, b], id, author) + Notices([c, d], id, author)
  {
    assert [a][..0] == [];
    assert [a, b] == [a] + [b] && [a, b, c, d] == [a, b] + [c, d];
    NoticesMore([a], [b], id, author);
    NoticesMore([a, b], [c, d], id, author);
  }

  /** Delivery keeps all messages of an author who is not blocked, and none of one who is. */
  lemma {:induction false} DeliveredNotices(dir: Directory, user: string, events: seq<DmEvent>, id: string, author: string)
    ensures Notices(Delivered(dir, user, events), id, author)
         == if HasBlock(dir, user, author) then 0 else Notices(events, id, author)
  {
    if events != [] {
      var n := |events| - 1;
      DeliveredNotices(dir, user, events[..n], id, author);
      var last := if Suppressed(dir, user, events[n]) then [] else [events[n]];
      NoticesMore(Delivered(dir, user, events[..n]), last, id, author);
      ShortNotices(events[n], events[n], events[n], events[n], id, author);
      hide HasBlock;
      assert events[n] == Message(id, author) ==> (Suppressed(dir, user, events[n]) <==> HasBlock(dir, user, author));
      hide Suppressed;
    }
  }

  lemma {:induction false} RepeatedNotices(id: string, author: string, n: nat)
    ensures Notices(Repeated(id, author, n), id, author) == n
  {
    if n > 0 {
      RepeatedNotices(id, author, n - 1);
      NoticesMore(Repeated(id, author, n - 1), [Message(id, author)], id, author);
      assert [Message(id, author)][..0] == [];
    }
  }

  /**
   How many messages an accepted request writes for `user`: one to each member,
   a second one when a leaving owner is succeeded, one per invited user to the
   local members of a new group, and none for opening or closing.
   */
  function Written(local: set<string>, dms: Dms, dir: Directory, r: Request, ch: Choice, user: string): nat
    requires Possible(dms, r, ch) && Accepted(dms, dir, r)
  {
    match r
    case OpenDirect(_, _) => 0
    case CloseDm(_, _) => 0
    case CreateGroup(caller, users, _) => if user in local && (user == caller || user in users) then |users| else 0
    case InviteDirect(caller, target, _) => if user == caller || user == target then 1 else 0
    case Post(id, _, _) => if user in dms[id].members then 1 else 0
    case AddMember(id, _, target) => if user == target || user in dms[id].members then 1 else 0
    case Transfer(id, _, _) => if user in dms[id].members then 1 else 0
    case Kick(id, _, _) => if user in dms[id].members then 1 else 0
    case LeaveGroup(id, caller) =>
      if user !in dms[id].members then 0 else if user != caller && dms[id].owner == Some(caller) then 2 else 1
  }

  /** Every message written for a user arrives, once, unless the user has blocked the author. */
  lemma EveryNoticeArrives(local: set<string>, dms: Dms, dir: Directory, r: Request, ch: Choice, user: string)
    requires Structured(dms) && Possible(dms, r, ch) && Accepted(dms, dir, r)
    ensures Notices(Sent(local, dms, dir, r, ch, user), Subject(dms, r, ch), r.caller)
         == if HasBlock(dir, user, r.caller) then 0 else Written(local, dms, dir, r, ch, user)
  {
    DeliveredNotices(dir, user, EventsFor(local, dms, dir, r, ch, user), Subject(dms, r, ch), r.caller);
    hide HasBlock, Delivered, Structured;
    if r.CreateGroup? {
      CreationNotices(local, dms, dir, r, ch, user);
    } else if r.OpenDirect? || r.InviteDirect? {
      DirectNotices(local, dms, dir, r, ch, user);
    } else {
      RowNotices(local, dms, dir, r, ch, user);
    }
  }

  lemma CreationNotices(local: set<string>, dms: Dms, dir: Directory, r: Request, ch: Choice, user: string)
    requires Possible(dms, r, ch) && Accepted(dms, dir, r) && r.CreateGroup?
    ensures Notices(EventsFor(local, dms, dir, r, ch, user), Subject(dms, r, ch), r.caller) == Written(local, dms, dir, r, ch, user)
  {
    hide Status, Notices;
    var id, shown := ch.newId, Shown(ch.newId, ViewOf(Row(dms, dir, r, ch)));
    assert forall other :: other in [r.caller] + r.users <==> other == r.caller || other in r.users;
    var told := if user in Row(dms, dir, r, ch).members && user in local then [shown] + Repeated(id, r.caller, |r.users|) else [];
    NoticesMore(told, if user == r.caller then [shown] else [], id, r.caller);
    NoticesMore([shown], Repeated(id, r.caller, |r.users|), id, r.caller);
    RepeatedNotices(id, r.caller, |r.users|);
    ShortNotices(shown, shown, shown, shown, id, r.caller);
  }

  lemma PostedNotices(id: string, dm: Dm, author: string, user: string)
    ensures Notices(Posted(id, dm, author, user), id, author) == if user in dm.members then 1 else 0
  {
    var shown, message := Shown(id, ViewOf(dm)), Message(id, author);
    hide Notices;
    ShortNotices(shown, message, message, message, id, author);
    ShortNotices(message, message, message, message, id, author);
    assert [shown] + [message] == [shown, message] && [] + [message] == [message];
  }

  lemma DirectNotices(local: set<string>, dms: Dms, dir: Directory, r: Request, ch: Choice, user: string)
    requires Structured(dms) && Possible(dms, r, ch) && Accepted(dms, dir, r) && (r.OpenDirect? || r.InviteDirect?)
    ensures Notices(EventsFor(local, dms, dir, r, ch, user), Subject(dms, r, ch), r.caller) == Written(local, dms, dir, r, ch, user)
  {
    DirectFits(dms, dir, r, ch);
    hide Structured, Status, Notices, Direct, Shared, Posted;
    var id, shown := Subject(dms, r, ch), Shown(Subject(dms, r, ch), ViewOf(Direct(dms, r, ch)));
    var row := Shown(id, ViewOf(Row(dms, dir, r, ch)));
    ShortNotices(shown, shown, shown, shown, id, r.caller);
    ShortNotices(row, row, row, row, id, r.caller);
    if r.InviteDirect? {
      PostedNotices(id, Direct(dms, r, ch), r.caller, user);
      NoticesMore(if user == r.target && Reusable(dms, r) == {} then [shown] else [], Posted(id, Direct(dms, r, ch), r.caller, user), id, r.caller);
      assert user in Direct(dms, r, ch).members.Keys <==> user in {r.caller, r.target};
    }
  }

  lemma RowNotices(local: set<string>, dms: Dms, dir: Directory, r: Request, ch: Choice, user: string)
    requires Possible(dms, r, ch) && Accepted(dms, dir, r) && !r.OpenDirect? && !r.InviteDirect? && !r.CreateGroup?
    ensures Notices(EventsFor(local, dms, dir, r, ch, user), Subject(dms, r, ch), r.caller) == Written(local, dms, dir, r, ch, user)
  {
    hide Notices, Posted;
    var id, m := r.id, Message(r.id, r.caller);
    match r
    case AddMember(_, _, target) =>
      ShortNotices(Shown(id, ViewOf(Row(dms, dir, r, ch))), m, m, m, id, r.caller);
      ShortNotices(MemberAdded(id, target), m, m, m, id, r.caller);
      ShortNotices(m, m, m, m, id, r.caller);
    case Transfer(_, _, target) =>
      ShortNotices(OwnerUpdated(id, target), m, m, m, id, r.caller);
      ShortNotices(m, m, m, m, id, r.caller);
    case Kick(_, _, target) => RemovalNotices(id, r.caller, target, ch.heir);
    case LeaveGroup(_, caller) => RemovalNotices(id, caller, caller, ch.heir);
    case CloseDm(_, _) => ShortNotices(Closed(id), m, m, m, id, r.caller);
    case Post(_, _, _) => PostedNotices(id, dms[id], r.caller, user);
  }

  lemma RemovalNotices(id: string, author: string, target: string, heir: string)
    ensures Notices([], id, author) == 0 && Notices([Message(id, author)], id, author) == 1
    ensures Notices([Message(id, author), Closed(id)], id, author) == 1
    ensures Notices([Message(id, author), MemberRemoved(id, target)], id, author) == 1
    ensures Notices([Message(id, author), OwnerUpdated(id, heir), Message(id, author), MemberRemoved(id, target)], id, author) == 2
  {
    var m := Message(id, author);
    hide Notices;
    ShortNotices(m, Closed(id), m, m, id, author);
    ShortNotices(Closed(id), m, m, m, id, author);
    ShortNotices(m, OwnerUpdated(id, heir), m, MemberRemoved(id, target), id, author);
    ShortNotices(OwnerUpdated(id, heir), m, m, m, id, author);
    ShortNotices(m, MemberRemoved(id, target), m, m, id, author);
    ShortNotices(MemberRemoved(id, target), m, m, m, id, author);
  }

  // ---------------------------------------------------------------------
  // What the list shows
  // ---------------------------------------------------------------------

  /** After an accepted transfer the list of every local member with the group open shows the target as its owner. */
  lemma TransferIsShown(local: set<string>, start: Dms, user: string, c: Sidebar, run: seq<Step>)
    requires Structured(start) && PairsUnique(start) && Running(start, run) && user in local && InSync(start, user, c)
    requires run != [] && run[|run| - 1].request.Transfer?
    requires var dms, last := Before(start, run, |run| - 1), run[|run| - 1];
             Accepted(dms, last.dir, last.request)
             && user in dms[last.request.id].members && !dms[last.request.id].members[user]
    ensures var now, r := SidebarAfter(local, start, user, c, run), run[|run| - 1].request;
            r.id in now && now[r.id].owner == Some(r.target) && user in now[r.id].members
  {
    var n := |run| - 1;
    var dms, last := Before(start, run, n), run[n];
    EveryRunIsStructured(start, run[..n]);
    RowLeaves(dms, last.dir, last.request, last.choice);
    GroupMirrorIsExact(local, start, user, c, run);
    assert Mirrors(DmsAfter(start, run)[last.request.id], last.request.id, user, SidebarAfter(local, start, user, c, run));
  }

  /** A direct message is on the caller's list after POST /api/dm, and on the target's when the channel is new. */
  lemma DirectIsShown(local: set<string>, dms: Dms, dir: Directory, r: Request, ch: Choice, user: string, c: Sidebar)
    requires Structured(dms) && Possible(dms, r, ch) && Accepted(dms, dir, r) && (r.OpenDirect? || r.InviteDirect?)
    requires (user == r.caller && r.OpenDirect?) || (user == r.target && Subject(dms, r, ch) !in dms)
    ensures var now, id := Replay(c, Sent(local, dms, dir, r, ch, user)), Subject(dms, r, ch);
            id in now && now[id].members == {r.caller, r.target} && (id !in dms ==> now[id].owner.None?)
  {
    DirectFits(dms, dir, r, ch);
    FoundJoinsPair(dms, dir, r, ch);
    DeliveredIsHeard(dir, user, c, EventsFor(local, dms, dir, r, ch, user));
    var id, direct := Subject(dms, r, ch), Direct(dms, r, ch);
    var shown, message := Shown(id, ViewOf(direct)), Message(id, r.caller);
    assert direct.members.Keys == {r.caller, r.target} && (id !in dms ==> direct.owner.None? && !direct.members[r.target]);
    HearOne(dir, user, c, shown);
    HearTwo(dir, user, c, shown, message);
    hide Structured, RowFits, Possible, Status, Shared, SharedDirect, Reusable, Hear, Direct, HasBlock;
    assert [shown] + [message] == [shown, message];
  }

  /** Closing takes the channel off the caller's list and off nobody else's. */
  lemma ClosingIsShown(local: set<string>, dms: Dms, dir: Directory, r: Request, ch: Choice, user: string, c: Sidebar)
    requires Possible(dms, r, ch) && Accepted(dms, dir, r) && r.CloseDm?
    ensures Replay(c, Sent(local, dms, dir, r, ch, user)) == if user == r.caller then c - {r.id} else c
  {
    DeliveredIsHeard(dir, user, c, EventsFor(local, dms, dir, r, ch, user));
    HearOne(dir, user, c, Closed(r.id));
    HearNone(dir, user, c);
    hide Hear, Possible;
  }

  /** A post puts a channel its recipient had closed back on the list, whole. */
  lemma PostIsShown(local: set<string>, dms: Dms, dir: Directory, r: Request, ch: Choice, user: string, c: Sidebar)
    requires Possible(dms, r, ch) && Accepted(dms, dir, r) && r.Post? && !dms[r.id].deleted
    requires user in dms[r.id].members && dms[r.id].members[user]
    ensures var now := Replay(c, Sent(local, dms, dir, r, ch, user));
            r.id in now && now[r.id] == View(dms[r.id].owner, dms[r.id].members.Keys)
  {
    DeliveredIsHeard(dir, user, c, EventsFor(local, dms, dir, r, ch, user));
    var shown, message := Shown(r.id, ViewOf(dms[r.id])), Message(r.id, r.caller);
    HearTwo(dir, user, c, shown, message);
    hide Hear, Possible, HasBlock;
    assert [shown] + [message] == [shown, message];
  }
}
