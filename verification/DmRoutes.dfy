/**
 The direct-message handlers as the server runs them
 (packages/server/src/routes/dm.ts, lines 194-261, 283-398, 477-789, 926-1455,
 1716-2147, 2162-2245, 2363-2487 and 2490-2580): rows are changed step by step and events
 are sent in loops over the members. Every handler is proved to answer with
 DmGroups.Status, to make DmGroups.After of the tables, and to send each user
 exactly DmMirror.Sent. SendToUser has the suppression of blocked authors
 (packages/server/src/ws/handler.ts, lines 888-899, and
 packages/server/src/utils/userBlocks.ts, lines 12-38).
 */
module DmRoutes {
  import opened Totals
  import opened DmGroups
  import opened DmMirror

  type Outbox = map<string, seq<DmEvent>>

  function Box(outbox: Outbox, user: string): seq<DmEvent> {
    if user in outbox then outbox[user] else []
  }

  /** What one request did: the tables, and each user's outbox. */
  ghost predicate Handled(local: set<string>, was: Dms, dir: Directory, r: Request, ch: Choice, now: Dms, before: Outbox, after: Outbox) {
    && Possible(was, r, ch)
    && now == After(was, dir, r, ch)
    && forall user :: Box(after, user) == Box(before, user) + Sent(local, was, dir, r, ch, user)
  }

  lemma {:induction false} DeliveredMore(dir: Directory, user: string, xs: seq<DmEvent>, ys: seq<DmEvent>)
    ensures Delivered(dir, user, xs + ys) == Delivered(dir, user, xs) + Delivered(dir, user, ys)
  {
    if ys == [] {
      assert xs + ys == xs;
    } else {
      var n := |ys| - 1;
      assert (xs + ys)[..|xs + ys| - 1] == xs + ys[..n];
      DeliveredMore(dir, user, xs, ys[..n]);
    }
  }

  /** `e` alone when `sent` says so. */
  function If(sent: bool, e: DmEvent): seq<DmEvent> {
    if sent then [e] else []
  }

  /** What a user's outbox gains from consecutive loops. */
  lemma TwoAddUp(dir: Directory, user: string, b: seq<DmEvent>, xs: seq<DmEvent>, ys: seq<DmEvent>)
    ensures b + Delivered(dir, user, xs) + Delivered(dir, user, ys) == b + Delivered(dir, user, xs + ys)
  {
    DeliveredMore(dir, user, xs, ys);
  }

  lemma ThreeAddUp(dir: Directory, user: string, b: seq<DmEvent>, xs: seq<DmEvent>, ys: seq<DmEvent>, zs: seq<DmEvent>)
    ensures b + Delivered(dir, user, xs) + Delivered(dir, user, ys) + Delivered(dir, user, zs) == b + Delivered(dir, user, xs + ys + zs)
  {
    TwoAddUp(dir, user, b, xs, ys);
    TwoAddUp(dir, user, b, xs + ys, zs);
  }

  // Each helper below adds up what one user was sent by the consecutive loops of a handler.

  lemma JoinAddsUp(id: string, was: Dm, actor: string, target: string, user: string)
    requires target !in was.members
    ensures var row := WithMember(was, target, false);
            If(user in was.members, DmEvent.MemberAdded(id, target)) + If(user == target, Shown(id, View(row.owner, row.members.Keys)))
              + If(user in row.members, Message(id, actor))
            == Joined(id, row, actor, target, user)
  {
  }

  lemma RemovalAddsUp(id: string, was: Dm, actor: string, target: string, heir: string, user: string)
    requires target in was.members
    ensures var rest := was.(members := was.members - {target});
            If(user in was.members, Message(id, actor))
              + (if actor == target && was.owner == Some(actor) then Handed(id, rest, actor, heir, user) else [])
              + If(user in was.members.Keys - {target}, DmEvent.MemberRemoved(id, target))
            == Removed(id, was, actor, target, heir, user)
  {
  }

  /** The row once every member outside `todo` has been reopened. */
  ghost function OpenedBut(dm: Dm, todo: set<string>): Dm {
    dm.(members := map user | user in dm.members :: user in todo && dm.members[user])
  }

  lemma OpenOneMore(id: string, was: Dm, todo: set<string>, author: string, user: string)
    requires user in todo && todo <= was.members.Keys
    ensures user in OpenedBut(was, todo).members
    ensures WithMember(OpenedBut(was, todo), user, false) == OpenedBut(was, todo - {user})
    ensures Posted(id, OpenedBut(was, todo), author, user) == Posted(id, was, author, user)
  {
    assert OpenedBut(was, todo).members.Keys == was.members.Keys;
    assert WithMember(OpenedBut(was, todo), user, false).members == OpenedBut(was, todo - {user}).members;
  }

  lemma NonMembersGetNothing(id: string, dm: Dm, author: string, user: string)
    requires user !in dm.members
    ensures Posted(id, dm, author, user) == []
  {
  }

  ghost function PossibleInvite(dms: Dms, r: Request, newId: string): (ch: Choice)
    requires newId !in dms && r.InviteDirect?
    ensures Possible(dms, r, ch)
  {
    var matching := SharedDirect(dms, r.caller, r.target);
    Choice(newId, if matching == {} then newId else var id :| id in matching; id, newId)
  }

  /** POST /api/dm found a channel, reopened its caller's side and answers with it. */
  lemma FoundAnswered(local: set<string>, was: Dms, dir: Directory, r: Request, ch: Choice, before: Outbox, after: Outbox)
    requires r.OpenDirect? && r.target in dir.accounts && r.target != r.caller && ch.newId !in was
    requires ch.found in Shared(was, r.caller, r.target)
    requires var row := WithMember(was[ch.found], r.caller, false);
             forall user :: Box(after, user) == Box(before, user)
                              + Delivered(dir, user, If(user == r.caller, Shown(ch.found, View(row.owner, row.members.Keys))))
    ensures Status(was, dir, r) == 200
    ensures Handled(local, was, dir, r, ch, was[ch.found := WithMember(was[ch.found], r.caller, false)], before, after)
  {
  }

  /** POST /api/dm made a channel, told the target and answers with it. */
  lemma PairAnswered(local: set<string>, was: Dms, dir: Directory, r: Request, ch: Choice, before: Outbox, after: Outbox)
    requires r.OpenDirect? && r.target in dir.accounts && r.target != r.caller && ch.newId !in was
    requires Shared(was, r.caller, r.target) == {} && (r.caller in dir.admins || Friends(dir, r.caller, r.target))
    requires var shown := Shown(ch.newId, View(None, {r.caller, r.target}));
             forall user :: Box(after, user) == Box(before, user)
                              + Delivered(dir, user, If(user == r.target, shown)) + Delivered(dir, user, If(user == r.caller, shown))
    ensures Status(was, dir, r) == 201
    ensures Handled(local, was, dir, r, ch, was[ch.newId := Dm(None, false, map[r.caller := false, r.target := false])], before, after)
  {
    hide Friends, SharedDirect, Box;
    assert map[r.caller := false, r.target := false].Keys == {r.caller, r.target};
    var shown := Shown(ch.newId, View(None, {r.caller, r.target}));
    forall user ensures Box(after, user) == Box(before, user) + Sent(local, was, dir, r, ch, user) {
      assert Sent(local, was, dir, r, ch, user) == Delivered(dir, user, if user == r.caller || user == r.target then [shown] else []);
    }
  }

  /** POST /api/dm/group told the local members and answers with the group. */
  lemma GroupAnswered(local: set<string>, was: Dms, dir: Directory, r: Request, ch: Choice, shown: DmEvent, before: Outbox, after: Outbox)
    requires r.CreateGroup? && Status(was, dir, r) == 201 && ch.newId !in was
    requires shown == Shown(ch.newId, ViewOf(Row(was, dir, r, ch)))
    requires forall user :: Box(after, user) == Box(before, user)
               + Delivered(dir, user, if user in shown.view.members * local then [shown] + Repeated(ch.newId, r.caller, |r.users|) else [])
               + Delivered(dir, user, If(user == r.caller, shown))
    ensures Handled(local, was, dir, r, ch, was[ch.newId := Row(was, dir, r, ch)], before, after)
  {
    hide Status, Box, Row, Delivered;
    forall user ensures Box(after, user) == Box(before, user) + Sent(local, was, dir, r, ch, user) {
      TwoAddUp(dir, user, Box(before, user),
               if user in shown.view.members * local then [shown] + Repeated(ch.newId, r.caller, |r.users|) else [],
               If(user == r.caller, shown));
    }
  }

  /** What a removal tells one user, in the order of the sends. */
  lemma RemovalTold(dir: Directory, user: string, b: seq<DmEvent>, id: string, was: Dm, actor: string, target: string, heir: string)
    requires target in was.members
    ensures var rest := was.(members := was.members - {target});
            b + Delivered(dir, user, If(user in was.members, Message(id, actor)))
              + Delivered(dir, user, if actor == target && was.owner == Some(actor) then Handed(id, rest, actor, heir, user) else [])
              + Delivered(dir, user, If(user in was.members.Keys - {target}, DmEvent.MemberRemoved(id, target)))
            == b + Delivered(dir, user, Removed(id, was, actor, target, heir, user))
  {
    hide Handed, Removed, If, Delivered;
    ThreeAddUp(dir, user, b, If(user in was.members, Message(id, actor)),
               if actor == target && was.owner == Some(actor) then Handed(id, was.(members := was.members - {target}), actor, heir, user) else [],
               If(user in was.members.Keys - {target}, DmEvent.MemberRemoved(id, target)));
    RemovalAddsUp(id, was, actor, target, heir, user);
  }

  /** The removed user is told of the closing after the message. */
  lemma ClosedToo(dir: Directory, user: string, b: seq<DmEvent>, id: string, was: Dm, actor: string, target: string, heir: string)
    requires target in was.members
    ensures b + Delivered(dir, user, Removed(id, was, actor, target, heir, user)) + Delivered(dir, user, If(user == target, Closed(id)))
         == b + Delivered(dir, user, if user == target then [Message(id, actor), Closed(id)] else Removed(id, was, actor, target, heir, user))
  {
  }

  /** Leaving and kicking: the removal, then the closing for whom it concerns. */
  lemma RemovalAnswered(local: set<string>, was: Dms, dir: Directory, r: Request, ch: Choice, target: string, before: Outbox, after: Outbox)
    requires (r.LeaveGroup? && target == r.caller) || (r.Kick? && target == r.target)
    requires Status(was, dir, r) == 200 && Possible(was, r, ch) && target in was[r.id].members
    requires forall user :: Box(after, user) == Box(before, user)
               + Delivered(dir, user, Removed(r.id, was[r.id], r.caller, target, ch.heir, user)) + Delivered(dir, user, If(user == target, Closed(r.id)))
    ensures Handled(local, was, dir, r, ch, was[r.id := Without(was[r.id], target, r.LeaveGroup?, ch.heir)], before, after)
  {
    assert r.id in was;
    hide Status, Possible, Box, Delivered, Removed, If, Without;
    forall user ensures Box(after, user) == Box(before, user) + Sent(local, was, dir, r, ch, user) {
      ClosedToo(dir, user, Box(before, user), r.id, was[r.id], r.caller, target, ch.heir);
    }
  }

  lemma SomeRemain(was: Dm, target: string, actor: string, heir: string)
    requires target in was.members && was.members.Keys - {target} != {}
    ensures Without(was, target, actor == target, heir)
         == was.(members := was.members - {target}, owner := if actor == target && was.owner == Some(actor) then Some(heir) else was.owner)
  {
  }

  lemma NoneRemain(was: Dm, target: string, actor: string)
    requires target in was.members && was.members.Keys - {target} == {}
    ensures was.members.Keys == {target}
    ensures Without(was, target, actor == target, target)
         == was.(members := was.members - {target}, deleted := if actor == target then true else was.deleted)
  {
  }

  lemma LastRemoval(id: string, was: Dm, actor: string, target: string, heir: string, user: string)
    requires was.members.Keys == {target}
    ensures If(user in was.members, Message(id, actor)) == Removed(id, was, actor, target, heir, user)
  {
  }

  lemma RepeatOnce(dir: Directory, user: string, id: string, author: string, shown: DmEvent, n: nat, b: seq<DmEvent>, sent: bool)
    ensures b + Delivered(dir, user, if sent then [shown] + Repeated(id, author, n) else []) + Delivered(dir, user, If(sent, Message(id, author)))
         == b + Delivered(dir, user, if sent then [shown] + Repeated(id, author, n + 1) else [])
  {
    TwoAddUp(dir, user, b, if sent then [shown] + Repeated(id, author, n) else [], If(sent, Message(id, author)));
    assert [shown] + Repeated(id, author, n) + [Message(id, author)] == [shown] + (Repeated(id, author, n) + [Message(id, author)]);
  }

  lemma NothingDelivered(dir: Directory)
    ensures forall user :: Delivered(dir, user, []) == []
  {
  }

  lemma OneMoreUser(dir: Directory, users: set<string>, todo: set<string>, user: string, e: DmEvent, was: Outbox, mid: Outbox, now: Outbox)
    requires user in todo && todo <= users
    requires forall other :: Box(mid, other) == Box(was, other) + Delivered(dir, other, If(other in users - todo, e))
    requires forall other :: Box(now, other) == Box(mid, other) + Delivered(dir, other, If(other == user, e))
    ensures forall other :: Box(now, other) == Box(was, other) + Delivered(dir, other, If(other in users - (todo - {user}), e))
  {
    hide Delivered, Box;
    NothingDelivered(dir);
    forall other ensures Box(now, other) == Box(was, other) + Delivered(dir, other, If(other in users - (todo - {user}), e)) {
      if other == user {
        assert Box(was, other) + [] == Box(was, other);
      } else {
        assert Box(mid, other) + [] == Box(mid, other);
      }
    }
  }

  class DmServer {
    const local: set<string>
    var dms: Dms
    var outbox: Outbox

    constructor (local: set<string>)
      ensures this.local == local && dms == map[] && outbox == map[]
    {
      this.local := local;
      dms, outbox := map[], map[];
    }

    /** hasUserBlock and suppressBlockedContactEvent decide first. */
    method SendToUser(dir: Directory, user: string, e: DmEvent)
      modifies this`outbox
      ensures forall other :: Box(outbox, other) == Box(old(outbox), other) + Delivered(dir, other, If(other == user, e))
    {
      assert [e][..0] == [];
      if e.Message? && user != e.author && (user, e.author) in dir.blocks {
        return;
      }
      outbox := outbox[user := Box(outbox, user) + [e]];
    }

    method SendToEach(dir: Directory, users: set<string>, e: DmEvent)
      modifies this`outbox
      ensures forall user :: Box(outbox, user) == Box(old(outbox), user) + Delivered(dir, user, If(user in users, e))
    {
      var todo := users;
      while todo != {}
        invariant todo <= users
        invariant forall user :: Box(outbox, user) == Box(old(outbox), user) + Delivered(dir, user, If(user in users - todo, e))
        decreases todo
      {
        var user :| user in todo;
        ghost var mid := outbox;
        SendToUser(dir, user, e);
        OneMoreUser(dir, users, todo, user, e, old(outbox), mid, outbox);
        todo := todo - {user};
      }
    }

    /** A live two-member channel of both users, group channels skipped on request. */
    method FindShared(a: string, b: string, directOnly: bool) returns (found: Option<string>)
      ensures var matching := if directOnly then SharedDirect(dms, a, b) else Shared(dms, a, b);
              if found.Some? then found.value in matching else matching == {}
    {
      ghost var matching := if directOnly then SharedDirect(dms, a, b) else Shared(dms, a, b);
      var todo := dms.Keys;
      while todo != {}
        invariant todo <= dms.Keys && matching <= todo
        decreases todo
      {
        var id :| id in todo;
        if a in dms[id].members && b in dms[id].members && |dms[id].members.Keys| == 2
           && !dms[id].deleted && !(directOnly && dms[id].owner.Some?)
        {
          return Some(id);
        }
        todo := todo - {id};
      }
      return None;
    }

    /** One member of broadcastDmMessage: reopened and shown the channel if closed, then sent the message. */
    method Deliver(dir: Directory, id: string, author: string, user: string)
      requires id in dms && user in dms[id].members
      modifies this
      ensures dms == old(dms)[id := WithMember(old(dms)[id], user, false)]
      ensures forall other :: Box(outbox, other) == Box(old(outbox), other)
                                + Delivered(dir, other, if other == user then Posted(id, old(dms)[id], author, user) else [])
    {
      ghost var before := outbox;
      var row := dms[id];
      var shown := Shown(id, ViewOf(row));
      ghost var again := row.members[user] && !row.deleted;
      if row.members[user] {
        dms := dms[id := WithMember(row, user, false)];
        assert dms[id].members.Keys == row.members.Keys;
        if !row.deleted {
          SendToUser(dir, user, Shown(id, View(dms[id].owner, dms[id].members.Keys)));
        }
      } else {
        assert row.members[user := false] == row.members;
        assert dms == dms[id := WithMember(row, user, false)];
      }
      SendToUser(dir, user, Message(id, author));
      forall other ensures Box(outbox, other) == Box(before, other)
                             + Delivered(dir, other, if other == user then Posted(id, row, author, user) else []) {
        TwoAddUp(dir, other, Box(before, other), If(other == user && again, shown), If(other == user, Message(id, author)));
      }
    }

    /** broadcastDmMessage, member by member. */
    method BroadcastDmMessage(dir: Directory, id: string, author: string)
      requires id in dms
      modifies this
      ensures dms == old(dms)[id := AllOpen(old(dms)[id])]
      ensures forall user :: Box(outbox, user) == Box(old(outbox), user) + Delivered(dir, user, Posted(id, old(dms)[id], author, user))
    {
      hide Box, Posted, Delivered;
      ghost var was := dms[id];
      var todo := dms[id].members.Keys;
      assert dms[id] == OpenedBut(was, todo);
      NothingDelivered(dir);
      forall user | user !in todo ensures Posted(id, was, author, user) == [] {
        NonMembersGetNothing(id, was, author, user);
      }
      while todo != {}
        invariant todo <= was.members.Keys
        invariant dms == old(dms)[id := OpenedBut(was, todo)]
        invariant forall user :: Box(outbox, user) == Box(old(outbox), user)
                                   + if user in todo then [] else Delivered(dir, user, Posted(id, was, author, user))
        decreases todo
      {
        var user :| user in todo;
        OpenOneMore(id, was, todo, author, user);
        Deliver(dir, id, author, user);
        todo := todo - {user};
      }
      assert OpenedBut(was, {}) == AllOpen(was);
    }

    method OpenDirect(dir: Directory, caller: string, target: string, newId: string) returns (status: nat, ghost ch: Choice)
      requires newId !in dms
      modifies this
      ensures status == Status(old(dms), dir, Request.OpenDirect(caller, target))
      ensures Handled(local, old(dms), dir, Request.OpenDirect(caller, target), ch, dms, old(outbox), outbox)
    {
      hide Box, Delivered, If, Friends, SharedDirect, EventsFor, Row;
      ghost var r := Request.OpenDirect(caller, target);
      ch := Choice(newId, newId, newId);
      var found := FindShared(caller, target, false);
      if found.Some? {
        ch := ch.(found := found.value);
      }
      assert Possible(dms, r, ch);
      if target !in dir.accounts {
        return 404, ch;
      }
      if target == caller {
        return 400, ch;
      }
      if found.Some? {
        dms := dms[found.value := WithMember(dms[found.value], caller, false)];
        SendToUser(dir, caller, Shown(found.value, View(dms[found.value].owner, dms[found.value].members.Keys)));
        FoundAnswered(local, old(dms), dir, r, ch, old(outbox), outbox);
        return 200, ch;
      }
      if caller !in dir.admins && !Friends(dir, caller, target) {
        return 403, ch;
      }
      dms := dms[newId := Dm(None, false, map[caller := false, target := false])];
      assert dms[newId].members.Keys == {caller, target};
      SendToUser(dir, target, Shown(newId, View(None, dms[newId].members.Keys)));
      SendToUser(dir, caller, Shown(newId, View(None, dms[newId].members.Keys)));
      PairAnswered(local, old(dms), dir, r, ch, old(outbox), outbox);
      return 201, ch;
    }

    /** ensureOneOnOneDmChannel: the pair's one-on-one, reopened for the caller or created and shown to the target. */
    method EnsureOneOnOneDmChannel(dir: Directory, caller: string, target: string, ghost invitation: Invitation, newId: string)
      returns (id: string, ghost ch: Choice)
      requires newId !in dms && caller != target
      modifies this
      ensures var r := Request.InviteDirect(caller, target, invitation);
              && Possible(old(dms), r, ch) && id == Subject(old(dms), r, ch)
              && dms == old(dms)[id := Direct(old(dms), r, ch)]
              && forall user :: Box(outbox, user) == Box(old(outbox), user)
                   + Delivered(dir, user, If(user == target && Reusable(old(dms), r) == {}, Shown(id, ViewOf(Direct(old(dms), r, ch)))))
    {
      id, ch := newId, Choice(newId, newId, newId);
      var found := FindShared(caller, target, true);
      if found.Some? {
        id, ch := found.value, ch.(found := found.value);
        dms := dms[id := WithMember(dms[id], caller, false)];
      } else {
        dms := dms[id := Dm(None, false, map[caller := false, target := false])];
        SendToUser(dir, target, Shown(id, View(None, dms[id].members.Keys)));
      }
    }

    /** The space-invite route once the space's home has answered: the checks, the pair's channel, the invitation's message. */
    method InviteDirect(dir: Directory, caller: string, target: string, invitation: Invitation, newId: string)
      returns (status: nat, ghost ch: Choice)
      requires newId !in dms
      modifies this
      ensures status == Status(old(dms), dir, Request.InviteDirect(caller, target, invitation))
      ensures Handled(local, old(dms), dir, Request.InviteDirect(caller, target, invitation), ch, dms, old(outbox), outbox)
    {
      ghost var r, before := Request.InviteDirect(caller, target, invitation), outbox;
      ch := PossibleInvite(dms, r, newId);
      if !invitation.wellFormed {
        return 400, ch;
      }
      if !invitation.known {
        return 404, ch;
      }
      if target == caller || !invitation.friends || !invitation.snapshot {
        return 400, ch;
      }
      if invitation.approval {
        return 403, ch;
      }
      var id: string;
      id, ch := EnsureOneOnOneDmChannel(dir, caller, target, invitation, newId);
      BroadcastDmMessage(dir, id, caller);
      forall user ensures Box(outbox, user) == Box(before, user) + Sent(local, old(dms), dir, r, ch, user) {
        TwoAddUp(dir, user, Box(before, user),
                 If(user == target && Reusable(old(dms), r) == {}, Shown(id, ViewOf(Direct(old(dms), r, ch)))),
                 Posted(id, Direct(old(dms), r, ch), caller, user));
      }
      return 200, ch;
    }

    method AllKnown(dir: Directory, users: seq<string>) returns (ok: bool)
      ensures ok <==> forall user :: user in users ==> user in dir.accounts - dir.deleted
    {
      for i := 0 to |users|
        invariant forall j :: 0 <= j < i ==> users[j] in dir.accounts - dir.deleted
      {
        if users[i] !in dir.accounts || users[i] in dir.deleted {
          assert users[i] in users && users[i] !in dir.accounts - dir.deleted;
          return false;
        }
      }
      return true;
    }

    method AllDistinct(users: seq<string>) returns (ok: bool)
      ensures ok <==> Distinct(users)
    {
      var seen: set<string> := {};
      for i := 0 to |users|
        invariant seen == set user | user in users[..i]
        invariant Distinct(users[..i])
      {
        if users[i] in seen {
          return false;
        }
        seen := seen + {users[i]};
      }
      assert users[..|users|] == users;
      return true;
    }

    method AllAllowed(dir: Directory, caller: string, users: seq<string>, exempt: set<string>) returns (ok: bool)
      ensures ok <==> forall user :: user in users ==> user in exempt || Friends(dir, caller, user)
    {
      for i := 0 to |users|
        invariant forall j :: 0 <= j < i ==> users[j] in exempt || Friends(dir, caller, users[j])
      {
        if users[i] !in exempt && !Friends(dir, caller, users[i]) {
          return false;
        }
      }
      return true;
    }

    /** The checks on the invited users: known, distinct, without the caller, friends or exempt. */
    method CheckUsers(dir: Directory, caller: string, users: seq<string>, from: Option<string>) returns (status: nat)
      requires 2 <= |users| < MAX_MEMBERS
      ensures status == Status(dms, dir, Request.CreateGroup(caller, users, from))
    {
      hide Distinct, Friends;
      var known := AllKnown(dir, users);
      if !known {
        return 404;
      }
      var distinct := AllDistinct(users);
      if !distinct || caller in users {
        return 400;
      }
      var allowed := AllAllowed(dir, caller, users, Exempt(dms, caller, from));
      return if allowed then 201 else 403;
    }

    method CreateGroup(dir: Directory, caller: string, users: seq<string>, from: Option<string>, newId: string)
      returns (status: nat, ghost ch: Choice)
      requires newId !in dms
      modifies this
      ensures status == Status(old(dms), dir, Request.CreateGroup(caller, users, from))
      ensures Handled(local, old(dms), dir, Request.CreateGroup(caller, users, from), ch, dms, old(outbox), outbox)
    {
      hide Box, Delivered, If, Friends, Distinct, Exempt;
      ch := Choice(newId, newId, newId);
      if |users| < 2 || 1 + |users| > MAX_MEMBERS {
        return 400, ch;
      }
      status := CheckUsers(dir, caller, users, from);
      if status != 201 {
        return;
      }
      var members := map user | user in [caller] + users :: false;
      dms := dms[newId := Dm(Some(caller), false, members)];
      var shown := Shown(newId, View(Some(caller), members.Keys));
      AnnounceGroup(dir, newId, caller, members.Keys * local, shown, |users|);
      SendToUser(dir, caller, shown);
      hide Status;
      GroupAnswered(local, old(dms), dir, Request.CreateGroup(caller, users, from), ch, shown, old(outbox), outbox);
      return 201, ch;
    }

    /** The channel to each local member, then one system message per invited user. */
    method AnnounceGroup(dir: Directory, id: string, caller: string, receivers: set<string>, shown: DmEvent, notes: nat)
      modifies this`outbox
      ensures forall user :: Box(outbox, user) == Box(old(outbox), user)
                               + Delivered(dir, user, if user in receivers then [shown] + Repeated(id, caller, notes) else [])
    {
      ghost var before := outbox;
      SendToEach(dir, receivers, shown);
      for i := 0 to notes
        invariant forall user :: Box(outbox, user) == Box(before, user)
                                   + Delivered(dir, user, if user in receivers then [shown] + Repeated(id, caller, i) else [])
      {
        ghost var was := outbox;
        SendToEach(dir, receivers, Message(id, caller));
        forall user ensures Box(outbox, user) == Box(before, user)
                              + Delivered(dir, user, if user in receivers then [shown] + Repeated(id, caller, i + 1) else []) {
          RepeatOnce(dir, user, id, caller, shown, i, Box(before, user), user in receivers);
        }
      }
    }

    method AddMember(dir: Directory, id: string, caller: string, target: string) returns (status: nat, ghost ch: Choice)
      modifies this
      ensures status == Status(old(dms), dir, Request.AddMember(id, caller, target))
      ensures Handled(local, old(dms), dir, Request.AddMember(id, caller, target), ch, dms, old(outbox), outbox)
    {
      ch := Choice("", "", "");
      if target !in dir.accounts {
        return 404, ch;
      }
      if !Member(dms, id, caller) {
        return 403, ch;
      }
      if dms[id].deleted {
        return 404, ch;
      }
      if dms[id].owner.None? {
        return 400, ch;
      }
      if !Friends(dir, caller, target) {
        return 403, ch;
      }
      if target in dms[id].members || |dms[id].members.Keys| >= MAX_MEMBERS {
        return 400, ch;
      }
      Join(dir, id, caller, target);
      return 200, ch;
    }

    /** Inserts the member, tells those already there, shows the channel to the new one, then the system message. */
    method Join(dir: Directory, id: string, actor: string, target: string)
      requires id in dms && target !in dms[id].members
      modifies this
      ensures dms == old(dms)[id := WithMember(old(dms)[id], target, false)]
      ensures forall user :: Box(outbox, user) == Box(old(outbox), user) + Delivered(dir, user, Joined(id, dms[id], actor, target, user))
    {
      hide Joined, Box, Delivered, If;
      ghost var was, before := dms[id], outbox;
      var current := dms[id].members.Keys;
      dms := dms[id := WithMember(dms[id], target, false)];
      var shown := Shown(id, View(dms[id].owner, dms[id].members.Keys));
      SendToEach(dir, current, DmEvent.MemberAdded(id, target));
      SendToUser(dir, target, shown);
      SendToEach(dir, dms[id].members.Keys, Message(id, actor));
      forall user ensures Box(outbox, user) == Box(before, user) + Delivered(dir, user, Joined(id, dms[id], actor, target, user)) {
        ThreeAddUp(dir, user, Box(before, user), If(user in was.members, DmEvent.MemberAdded(id, target)), If(user == target, shown),
                   If(user in dms[id].members, Message(id, actor)));
        JoinAddsUp(id, was, actor, target, user);
      }
    }

    /** transferGroupDmOwnership: the row, the owner event, then the system message. */
    method TransferGroupDmOwnership(dir: Directory, id: string, actor: string, owner: string)
      requires id in dms
      modifies this
      ensures dms == old(dms)[id := old(dms)[id].(owner := Some(owner))]
      ensures forall user :: Box(outbox, user) == Box(old(outbox), user)
                               + Delivered(dir, user, Handed(id, dms[id], actor, owner, user))
    {
      ghost var before := outbox;
      dms := dms[id := dms[id].(owner := Some(owner))];
      SendToEach(dir, dms[id].members.Keys, OwnerUpdated(id, owner));
      SendToEach(dir, dms[id].members.Keys, Message(id, actor));
      forall user ensures Box(outbox, user) == Box(before, user) + Delivered(dir, user, Handed(id, dms[id], actor, owner, user)) {
        var member := user in dms[id].members;
        TwoAddUp(dir, user, Box(before, user), If(member, OwnerUpdated(id, owner)), If(member, Message(id, actor)));
        assert If(member, OwnerUpdated(id, owner)) + If(member, Message(id, actor)) == Handed(id, dms[id], actor, owner, user);
      }
    }

    /** removeDmMember: message, row, succession or soft delete, removal event. */
    method RemoveDmMember(dir: Directory, id: string, actor: string, target: string) returns (ghost heir: string)
      requires id in dms && target in dms[id].members
      modifies this
      ensures old(dms)[id].members.Keys != {target} ==> heir in old(dms)[id].members && heir != target
      ensures dms == old(dms)[id := Without(old(dms)[id], target, actor == target, heir)]
      ensures forall user :: Box(outbox, user) == Box(old(outbox), user)
                               + Delivered(dir, user, Removed(id, old(dms)[id], actor, target, heir, user))
    {
      hide Removed, Handed, Box, Delivered, If, Without;
      ghost var before := outbox;
      heir := target;
      var row := dms[id];
      SendToEach(dir, row.members.Keys, Message(id, actor));
      var remaining := row.members.Keys - {target};
      dms := dms[id := row.(members := row.members - {target})];
      assert dms[id].members.Keys == remaining;
      if remaining != {} {
        heir := SucceedAndTell(dir, id, row.owner, actor, target);
        SomeRemain(row, target, actor, heir);
        forall user ensures Box(outbox, user) == Box(before, user) + Delivered(dir, user, Removed(id, row, actor, target, heir, user)) {
          RemovalTold(dir, user, Box(before, user), id, row, actor, target, heir);
        }
      } else {
        if actor == target {
          dms := dms[id := dms[id].(deleted := true)];
        }
        NoneRemain(row, target, actor);
        forall user ensures Box(outbox, user) == Box(before, user) + Delivered(dir, user, Removed(id, row, actor, target, heir, user)) {
          LastRemoval(id, row, actor, target, heir, user);
        }
      }
    }

    /** A leaving owner is succeeded by a remaining member, then those who stay are told of the removal. */
    method SucceedAndTell(dir: Directory, id: string, owner: Option<string>, actor: string, target: string) returns (ghost heir: string)
      requires id in dms && dms[id].members.Keys != {} && dms[id].owner == owner
      modifies this
      ensures heir in old(dms)[id].members
      ensures dms == old(dms)[id := old(dms)[id].(owner := if actor == target && owner == Some(actor) then Some(heir) else owner)]
      ensures forall user :: Box(outbox, user) == Box(old(outbox), user)
                               + Delivered(dir, user, if actor == target && owner == Some(actor)
                                                        then Handed(id, old(dms)[id], actor, heir, user) else [])
                               + Delivered(dir, user, If(user in old(dms)[id].members.Keys, DmEvent.MemberRemoved(id, target)))
    {
      hide Box, Delivered, If;
      NothingDelivered(dir);
      var remaining := dms[id].members.Keys;
      var next :| next in remaining;
      heir := next;
      if actor == target && owner == Some(actor) {
        TransferGroupDmOwnership(dir, id, actor, next);
      }
      SendToEach(dir, remaining, DmEvent.MemberRemoved(id, target));
    }

    method LeaveGroup(dir: Directory, id: string, caller: string) returns (status: nat, ghost ch: Choice)
      modifies this
      ensures status == Status(old(dms), dir, Request.LeaveGroup(id, caller))
      ensures Handled(local, old(dms), dir, Request.LeaveGroup(id, caller), ch, dms, old(outbox), outbox)
    {
      hide Box, Delivered, Removed, If, Without, EventsFor;
      ch := Choice("", "", "");
      if id in dms && dms[id].members.Keys - {caller} != {} {
        ghost var other :| other in dms[id].members.Keys - {caller};
        ch := ch.(heir := other);
      }
      if !Member(dms, id, caller) {
        return 403, ch;
      }
      if dms[id].deleted {
        return 404, ch;
      }
      if dms[id].owner.None? {
        return 400, ch;
      }
      ghost var heir := RemoveDmMember(dir, id, caller, caller);
      ch := ch.(heir := heir);
      SendToUser(dir, caller, Closed(id));
      RemovalAnswered(local, old(dms), dir, Request.LeaveGroup(id, caller), ch, caller, old(outbox), outbox);
      return 200, ch;
    }

    method Kick(dir: Directory, id: string, caller: string, target: string) returns (status: nat, ghost ch: Choice)
      modifies this
      ensures status == Status(old(dms), dir, Request.Kick(id, caller, target))
      ensures Handled(local, old(dms), dir, Request.Kick(id, caller, target), ch, dms, old(outbox), outbox)
    {
      hide Box, Delivered, Removed, If, Without, EventsFor;
      ch := Choice("", "", "");
      if target !in dir.accounts || !Live(dms, id) {
        return 404, ch;
      }
      if dms[id].owner.None? {
        return 400, ch;
      }
      if dms[id].owner != Some(caller) {
        return 403, ch;
      }
      if target == caller {
        return 400, ch;
      }
      if target !in dms[id].members {
        return 404, ch;
      }
      ghost var heir := RemoveDmMember(dir, id, caller, target);
      ch := ch.(heir := heir);
      SendToUser(dir, target, Closed(id));
      RemovalAnswered(local, old(dms), dir, Request.Kick(id, caller, target), ch, target, old(outbox), outbox);
      return 200, ch;
    }

    method Transfer(dir: Directory, id: string, caller: string, target: string) returns (status: nat, ghost ch: Choice)
      modifies this
      ensures status == Status(old(dms), dir, Request.Transfer(id, caller, target))
      ensures Handled(local, old(dms), dir, Request.Transfer(id, caller, target), ch, dms, old(outbox), outbox)
    {
      ch := Choice("", "", "");
      if target !in dir.accounts || !Live(dms, id) {
        return 404, ch;
      }
      if dms[id].owner.None? {
        return 400, ch;
      }
      if dms[id].owner != Some(caller) {
        return 403, ch;
      }
      if target == caller || target !in dms[id].members {
        return 400, ch;
      }
      TransferGroupDmOwnership(dir, id, caller, target);
      return 200, ch;
    }

    method CloseDm(dir: Directory, id: string, caller: string) returns (status: nat, ghost ch: Choice)
      modifies this
      ensures status == Status(old(dms), dir, Request.CloseDm(id, caller))
      ensures Handled(local, old(dms), dir, Request.CloseDm(id, caller), ch, dms, old(outbox), outbox)
    {
      ch := Choice("", "", "");
      if id !in dms || caller !in dms[id].members {
        return 403, ch;
      }
      dms := dms[id := WithMember(dms[id], caller, true)];
      SendToUser(dir, caller, Closed(id));
      return 200, ch;
    }

    /** isDeadOneOnOne. */
    method IsDeadOneOnOne(dir: Directory, id: string, requester: string) returns (dead: bool)
      requires id in dms
      ensures dead <==> DeadOneOnOne(dms[id], dir, requester)
    {
      if dms[id].owner.Some? {
        return false;
      }
      var others := dms[id].members.Keys - {requester};
      if others == {} {
        return false;
      }
      var todo := others;
      while todo != {}
        invariant todo <= others && others - todo <= dir.deleted
        decreases todo
      {
        var user :| user in todo;
        if user !in dir.deleted {
          return false;
        }
        todo := todo - {user};
      }
      return true;
    }

    /** isBlockedDirectConversation. */
    method IsBlockedDirectConversation(dir: Directory, id: string, sender: string) returns (blocked: bool)
      requires id in dms
      ensures blocked <==> BlockedOneOnOne(dms[id], dir, sender)
    {
      if dms[id].owner.Some? {
        return false;
      }
      var todo := dms[id].members.Keys;
      while todo != {}
        invariant todo <= dms[id].members.Keys
        invariant forall user :: user in dms[id].members && user !in todo && user != sender ==>
                                   !HasBlock(dir, user, sender) && !HasBlock(dir, sender, user)
        decreases todo
      {
        var user :| user in todo;
        if user != sender && (HasBlock(dir, user, sender) || HasBlock(dir, sender, user)) {
          return true;
        }
        todo := todo - {user};
      }
      return false;
    }

    method Post(dir: Directory, id: string, caller: string, wellFormed: bool) returns (status: nat, ghost ch: Choice)
      modifies this
      ensures status == Status(old(dms), dir, Request.Post(id, caller, wellFormed))
      ensures Handled(local, old(dms), dir, Request.Post(id, caller, wellFormed), ch, dms, old(outbox), outbox)
    {
      ch := Choice("", "", "");
      if id !in dms || caller !in dms[id].members {
        return 403, ch;
      }
      var dead := IsDeadOneOnOne(dir, id, caller);
      if dead {
        return 403, ch;
      }
      var blocked := IsBlockedDirectConversation(dir, id, caller);
      if blocked {
        return 403, ch;
      }
      if !wellFormed {
        return 400, ch;
      }
      BroadcastDmMessage(dir, id, caller);
      return 201, ch;
    }
  }
}
