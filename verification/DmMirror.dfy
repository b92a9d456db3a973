/**
 What each user is sent for a direct-message request, and what it makes of the
 user's sidebar (packages/server/src/routes/dm.ts, lines 194-261, 380-395,
 604-634, 686-779, 1044-1067, 1144-1163, 1326-1382, 1742-1746, 1900-1948,
 2061-2067 and 2140-2144; packages/server/src/ws/handler.ts, lines 888-899;
 packages/server/src/utils/userBlocks.ts, lines 12-38; packages/web/src/stores/spaceStore.ts, lines 279-288
 and 398-437; packages/web/src/hooks/useWebSocket.ts, lines 732-790 and
 1145-1192).
 */
module DmMirror {
  import opened Totals
  import opened DmGroups

  /** The owner and members a client shows. */
  datatype View = View(owner: Option<string>, members: set<string>)

  type Sidebar = map<string, View>

  datatype DmEvent =
    | Shown(id: string, view: View)             // dm_channel_created, or the response of POST /api/dm and /api/dm/group
    | MemberAdded(id: string, user: string)
    | MemberRemoved(id: string, user: string)
    | OwnerUpdated(id: string, owner: string)
    | Closed(id: string)
    | Message(id: string, author: string)       // dm_message_created

  /** The list already holds a two-member channel with the author, to which the client routes an unknown message. */
  predicate KnowsPair(c: Sidebar, author: string) {
    exists id :: id in c && |c[id].members| == 2 && author in c[id].members
  }

  function Apply(c: Sidebar, e: DmEvent): Sidebar {
    match e
    case Shown(id, view) => c[id := view]
    case Closed(id) => c - {id}
    case MemberAdded(id, user) => if id in c then c[id := c[id].(members := c[id].members + {user})] else c
    case MemberRemoved(id, user) => if id in c then c[id := c[id].(members := c[id].members - {user})] else c
    case OwnerUpdated(id, owner) => if id in c then c[id := c[id].(owner := Some(owner))] else c
    case Message(id, author) =>
      if id in c || KnowsPair(c, author) then c else c[id := View(None, {author})]
  }

  function Replay(c: Sidebar, events: seq<DmEvent>): Sidebar {
    if events == [] then c
    else Apply(Replay(c, events[..|events| - 1]), events[|events| - 1])
  }

  function ViewOf(dm: Dm): View {
    View(dm.owner, dm.members.Keys)
  }

  // ---------------------------------------------------------------------
  // What one user is sent
  // ---------------------------------------------------------------------

  /** broadcastDmMessage: a closed channel resurfaces before its message arrives. */
  function Posted(id: string, dm: Dm, author: string, user: string): seq<DmEvent> {
    if user !in dm.members then []
    else (if dm.members[user] && !dm.deleted then [Shown(id, ViewOf(dm))] else []) + [Message(id, author)]
  }

  function Repeated(id: string, author: string, n: nat): seq<DmEvent> {
    if n == 0 then [] else Repeated(id, author, n - 1) + [Message(id, author)]
  }

  function Joined(id: string, row: Dm, actor: string, target: string, user: string): seq<DmEvent> {
    if user == target then [Shown(id, ViewOf(row)), Message(id, actor)]
    else if user in row.members then [MemberAdded(id, target), Message(id, actor)]
    else []
  }

  /** transferGroupDmOwnership: the owner event, then the system message. */
  function Handed(id: string, row: Dm, actor: string, owner: string, user: string): seq<DmEvent> {
    if user in row.members then [OwnerUpdated(id, owner), Message(id, actor)] else []
  }

  /** removeDmMember: a system message to all, the succession of a leaving owner, the removal to those who stay. */
  function Removed(id: string, was: Dm, actor: string, target: string, heir: string, user: string): seq<DmEvent> {
    if user !in was.members then []
    else if user == target then [Message(id, actor)]
    else if actor == target && was.owner == Some(actor) then
      [Message(id, actor), OwnerUpdated(id, heir), Message(id, actor), MemberRemoved(id, target)]
    else [Message(id, actor), MemberRemoved(id, target)]
  }

  /** The events and response `user` receives for an accepted request, in order. */
  function EventsFor(local: set<string>, dms: Dms, dir: Directory, r: Request, ch: Choice, user: string): seq<DmEvent>
    requires Possible(dms, r, ch) && Accepted(dms, dir, r)
  {
    var id, row := Subject(dms, r, ch), Row(dms, dir, r, ch);
    match r
    case OpenDirect(caller, target) =>
      if user == caller || (user == target && Reusable(dms, r) == {}) then [Shown(id, ViewOf(row))] else []
    case InviteDirect(caller, target, _) =>
      (if user == target && Reusable(dms, r) == {} then [Shown(id, ViewOf(Direct(dms, r, ch)))] else [])
      + Posted(id, Direct(dms, r, ch), caller, user)
    case CreateGroup(caller, users, _) =>
      (if user in row.members && user in local then [Shown(id, ViewOf(row))] + Repeated(id, caller, |users|) else [])
      + if user == caller then [Shown(id, ViewOf(row))] else []
    case AddMember(_, caller, target) => Joined(id, row, caller, target, user)
    case LeaveGroup(_, caller) =>
      if user == caller then [Message(id, caller), Closed(id)] else Removed(id, dms[id], caller, caller, ch.heir, user)
    case Kick(_, caller, target) =>
      if user == target then [Message(id, caller), Closed(id)] else Removed(id, dms[id], caller, target, ch.heir, user)
    case Transfer(_, caller, target) => Handed(id, row, caller, target, user)
    case CloseDm(_, caller) => if user == caller then [Closed(id)] else []
    case Post(_, caller, _) => Posted(id, dms[id], caller, user)
  }

  /** sendToUser drops a message for a recipient who has blocked its author. */
  predicate Suppressed(dir: Directory, user: string, e: DmEvent) {
    e.Message? && HasBlock(dir, user, e.author)
  }

  function Delivered(dir: Directory, user: string, events: seq<DmEvent>): seq<DmEvent> {
    if events == [] then []
    else
      var n := |events| - 1;
      Delivered(dir, user, events[..n]) + if Suppressed(dir, user, events[n]) then [] else [events[n]]
  }

  /** Refused requests send nothing. */
  function Sent(local: set<string>, dms: Dms, dir: Directory, r: Request, ch: Choice, user: string): seq<DmEvent> {
    if Possible(dms, r, ch) && Accepted(dms, dir, r) then Delivered(dir, user, EventsFor(local, dms, dir, r, ch, user)) else []
  }

  // ---------------------------------------------------------------------
  // Replaying events
  // ---------------------------------------------------------------------

  function Heard(dir: Directory, user: string, c: Sidebar, e: DmEvent): Sidebar {
    if Suppressed(dir, user, e) then c else Apply(c, e)
  }

  /** The replay of what is delivered out of `events`. */
  function Hear(dir: Directory, user: string, c: Sidebar, events: seq<DmEvent>): Sidebar {
    if events == [] then c
    else Heard(dir, user, Hear(dir, user, c, events[..|events| - 1]), events[|events| - 1])
  }

  lemma {:induction false} DeliveredIsHeard(dir: Directory, user: string, c: Sidebar, events: seq<DmEvent>)
    ensures Replay(c, Delivered(dir, user, events)) == Hear(dir, user, c, events)
  {
    if events != [] {
      var n := |events| - 1;
      DeliveredIsHeard(dir, user, c, events[..n]);
      var before := Delivered(dir, user, events[..n]);
      assert before + [] == before;
      assert (before + [events[n]])[..|before|] == before;
    }
  }

  lemma {:induction false} HearMore(dir: Directory, user: string, c: Sidebar, xs: seq<DmEvent>, ys: seq<DmEvent>)
    ensures Hear(dir, user, c, xs + ys) == Hear(dir, user, Hear(dir, user, c, xs), ys)
  {
    if ys == [] {
      assert xs + ys == xs;
    } else {
      var n := |ys| - 1;
      assert (xs + ys)[..|xs + ys| - 1] == xs + ys[..n];
      HearMore(dir, user, c, xs, ys[..n]);
    }
  }

  lemma HearNone(dir: Directory, user: string, c: Sidebar)
    ensures Hear(dir, user, c, []) == c
  {
  }

  lemma HearOne(dir: Directory, user: string, c: Sidebar, e: DmEvent)
    ensures Hear(dir, user, c, [e]) == Heard(dir, user, c, e)
  {
  }

  lemma HearTwo(dir: Directory, user: string, c: Sidebar, d: DmEvent, e: DmEvent)
    ensures Hear(dir, user, c, [d, e]) == Heard(dir, user, Heard(dir, user, c, d), e)
  {
    HearOne(dir, user, c, d);
    assert [d, e][..1] == [d];
  }

  lemma HearFour(dir: Directory, user: string, c: Sidebar, d: DmEvent, e: DmEvent, f: DmEvent, g: DmEvent)
    ensures Hear(dir, user, c, [d, e, f, g])
         == Heard(dir, user, Heard(dir, user, Heard(dir, user, Heard(dir, user, c, d), e), f), g)
  {
    HearTwo(dir, user, c, d, e);
    HearTwo(dir, user, Hear(dir, user, c, [d, e]), f, g);
    assert [d, e, f, g] == [d, e] + [f, g];
    HearMore(dir, user, c, [d, e], [f, g]);
  }

  /** Events about one channel leave every other entry alone. */
  lemma {:induction false} OthersUntouched(dir: Directory, user: string, c: Sidebar, events: seq<DmEvent>, id: string, other: string)
    requires (forall e :: e in events ==> e.id == id) && other != id
    ensures other in Hear(dir, user, c, events) <==> other in c
    ensures other in c ==> Hear(dir, user, c, events)[other] == c[other]
  {
    if events != [] {
      OthersUntouched(dir, user, c, events[..|events| - 1], id, other);
      assert events[|events| - 1] in events;
    }
  }

  lemma {:induction false} RepeatsAboutOne(dir: Directory, user: string, c: Sidebar, id: string, author: string, n: nat)
    ensures forall e :: e in Repeated(id, author, n) ==> e.id == id
    ensures id in c ==> Hear(dir, user, c, Repeated(id, author, n)) == c
  {
    if n > 0 {
      RepeatsAboutOne(dir, user, c, id, author, n - 1);
      assert (Repeated(id, author, n - 1) + [Message(id, author)])[..|Repeated(id, author, n - 1)|] == Repeated(id, author, n - 1);
    }
  }

  lemma AboutSubject(local: set<string>, dms: Dms, dir: Directory, r: Request, ch: Choice, user: string)
    requires Possible(dms, r, ch) && Accepted(dms, dir, r)
    ensures forall e :: e in EventsFor(local, dms, dir, r, ch, user) ==> e.id == Subject(dms, r, ch)
  {
    if r.CreateGroup? {
      RepeatsAboutOne(dir, user, map[], Subject(dms, r, ch), r.caller, |r.users|);
    }
  }

  // ---------------------------------------------------------------------
  // The mirror
  // ---------------------------------------------------------------------

  /** The entry agrees with a group's row: exact for an open member, absent for anyone who is not a member. */
  predicate Mirrors(dm: Dm, id: string, user: string, c: Sidebar) {
    dm.owner.Some? ==>
      && (user in dm.members && !dm.members[user] ==> id in c && c[id] == ViewOf(dm))
      && (user !in dm.members ==> id !in c)
  }

  ghost predicate InSync(dms: Dms, user: string, c: Sidebar) {
    && c.Keys <= dms.Keys
    && forall id :: id in dms ==> Mirrors(dms[id], id, user, c)
  }

  lemma SubjectMirrored(local: set<string>, dms: Dms, dir: Directory, r: Request, ch: Choice, user: string, c: Sidebar)
    requires Structured(dms) && Possible(dms, r, ch) && Accepted(dms, dir, r) && user in local
    requires InSync(dms, user, c)
    ensures Mirrors(Row(dms, dir, r, ch), Subject(dms, r, ch), user, Hear(dir, user, c, EventsFor(local, dms, dir, r, ch, user)))
  {
    hide Structured, Possible, Accepted, EventsFor, Row, Subject, Mirrors, InSync, Hear;
    match r
    case OpenDirect(_, _) => OpenMirrored(local, dms, dir, r, ch, user, c);
    case InviteDirect(_, _, _) => InviteIsNoGroup(dms, dir, r, ch, Hear(dir, user, c, EventsFor(local, dms, dir, r, ch, user)), user);
    case CreateGroup(_, _, _) => CreationMirrored(local, dms, dir, r, ch, user, c);
    case AddMember(_, _, _) => AdditionMirrored(local, dms, dir, r, ch, user, c);
    case LeaveGroup(_, _) => LeaveMirrored(local, dms, dir, r, ch, user, c);
    case Kick(_, _, _) => KickMirrored(local, dms, dir, r, ch, user, c);
    case Transfer(_, _, _) => TransferMirrored(local, dms, dir, r, ch, user, c);
    case CloseDm(_, _) => CloseMirrored(local, dms, dir, r, ch, user, c);
    case Post(_, _, _) => PostMirrored(local, dms, dir, r, ch, user, c);
  }

  lemma InviteIsNoGroup(dms: Dms, dir: Directory, r: Request, ch: Choice, c: Sidebar, user: string)
    requires Possible(dms, r, ch) && Accepted(dms, dir, r) && r.InviteDirect?
    ensures Mirrors(Row(dms, dir, r, ch), Subject(dms, r, ch), user, c)
  {
  }

  lemma AdditionMirrored(local: set<string>, dms: Dms, dir: Directory, r: Request, ch: Choice, user: string, c: Sidebar)
    requires Structured(dms) && Possible(dms, r, ch) && Accepted(dms, dir, r) && r.AddMember?
    requires InSync(dms, user, c)
    ensures Mirrors(Row(dms, dir, r, ch), Subject(dms, r, ch), user, Hear(dir, user, c, EventsFor(local, dms, dir, r, ch, user)))
  {
    hide Possible, Hear, HasBlock;
    HearNone(dir, user, c);
    var id := r.id;
    assert Mirrors(dms[id], id, user, c);
    HearTwo(dir, user, c, MemberAdded(id, r.target), Message(id, r.caller));
    HearTwo(dir, user, c, Shown(id, ViewOf(Row(dms, dir, r, ch))), Message(id, r.caller));
    assert dms[id].members[r.target := false].Keys == dms[id].members.Keys + {r.target};
  }

  lemma KickMirrored(local: set<string>, dms: Dms, dir: Directory, r: Request, ch: Choice, user: string, c: Sidebar)
    requires Structured(dms) && Possible(dms, r, ch) && Accepted(dms, dir, r) && r.Kick?
    requires InSync(dms, user, c)
    ensures Mirrors(Row(dms, dir, r, ch), Subject(dms, r, ch), user, Hear(dir, user, c, EventsFor(local, dms, dir, r, ch, user)))
  {
    hide Possible, Hear, HasBlock;
    HearNone(dir, user, c);
    var id := r.id;
    assert Mirrors(dms[id], id, user, c);
    HearTwo(dir, user, c, Message(id, r.caller), MemberRemoved(id, r.target));
    HearTwo(dir, user, c, Message(id, r.caller), Closed(id));
    assert (dms[id].members - {r.target}).Keys == dms[id].members.Keys - {r.target};
  }

  lemma TransferMirrored(local: set<string>, dms: Dms, dir: Directory, r: Request, ch: Choice, user: string, c: Sidebar)
    requires Structured(dms) && Possible(dms, r, ch) && Accepted(dms, dir, r) && r.Transfer?
    requires InSync(dms, user, c)
    ensures Mirrors(Row(dms, dir, r, ch), Subject(dms, r, ch), user, Hear(dir, user, c, EventsFor(local, dms, dir, r, ch, user)))
  {
    hide Possible, Hear, HasBlock;
    HearNone(dir, user, c);
    assert Mirrors(dms[r.id], r.id, user, c);
    HearTwo(dir, user, c, OwnerUpdated(r.id, r.target), Message(r.id, r.caller));
  }

  lemma CloseMirrored(local: set<string>, dms: Dms, dir: Directory, r: Request, ch: Choice, user: string, c: Sidebar)
    requires Structured(dms) && Possible(dms, r, ch) && Accepted(dms, dir, r) && r.CloseDm?
    requires InSync(dms, user, c)
    ensures Mirrors(Row(dms, dir, r, ch), Subject(dms, r, ch), user, Hear(dir, user, c, EventsFor(local, dms, dir, r, ch, user)))
  {
  }

  lemma PostMirrored(local: set<string>, dms: Dms, dir: Directory, r: Request, ch: Choice, user: string, c: Sidebar)
    requires Structured(dms) && Possible(dms, r, ch) && Accepted(dms, dir, r) && r.Post?
    requires InSync(dms, user, c)
    ensures Mirrors(Row(dms, dir, r, ch), Subject(dms, r, ch), user, Hear(dir, user, c, EventsFor(local, dms, dir, r, ch, user)))
  {
    hide Possible, Hear, HasBlock;
    var id := r.id;
    assert Mirrors(dms[id], id, user, c) && (dms[id].owner.Some? ==> !dms[id].deleted);
    hide Structured, RowFits, InSync, DeadOneOnOne, BlockedOneOnOne;
    HearTwo(dir, user, c, Shown(id, ViewOf(dms[id])), Message(id, r.caller));
    HearOne(dir, user, c, Message(id, r.caller));
    HearNone(dir, user, c);
    assert [Shown(id, ViewOf(dms[id]))] + [Message(id, r.caller)] == [Shown(id, ViewOf(dms[id])), Message(id, r.caller)];
    assert [] + [Message(id, r.caller)] == [Message(id, r.caller)];
    assert AllOpen(dms[id]).members.Keys == dms[id].members.Keys;
  }

  lemma OpenMirrored(local: set<string>, dms: Dms, dir: Directory, r: Request, ch: Choice, user: string, c: Sidebar)
    requires Structured(dms) && Possible(dms, r, ch) && Accepted(dms, dir, r) && r.OpenDirect?
    requires InSync(dms, user, c)
    ensures Mirrors(Row(dms, dir, r, ch), Subject(dms, r, ch), user, Hear(dir, user, c, EventsFor(local, dms, dir, r, ch, user)))
  {
  }

  lemma CreationMirrored(local: set<string>, dms: Dms, dir: Directory, r: Request, ch: Choice, user: string, c: Sidebar)
    requires Possible(dms, r, ch) && Accepted(dms, dir, r) && r.CreateGroup? && user in local
    requires InSync(dms, user, c)
    ensures Mirrors(Row(dms, dir, r, ch), Subject(dms, r, ch), user, Hear(dir, user, c, EventsFor(local, dms, dir, r, ch, user)))
  {
    var id, row := Subject(dms, r, ch), Row(dms, dir, r, ch);
    var shown, notes := Shown(id, ViewOf(row)), Repeated(id, r.caller, |r.users|);
    assert r.caller in [r.caller] + r.users;
    if user in row.members {
      HearOne(dir, user, c, shown);
      HearMore(dir, user, c, [shown], notes);
      RepeatsAboutOne(dir, user, Apply(c, shown), id, r.caller, |r.users|);
      assert Hear(dir, user, c, [shown] + notes) == Apply(c, shown);
      if user == r.caller {
        HearMore(dir, user, c, [shown] + notes, [shown]);
        HearOne(dir, user, Apply(c, shown), shown);
      } else {
        assert EventsFor(local, dms, dir, r, ch, user) == [shown] + notes;
      }
    } else {
      assert EventsFor(local, dms, dir, r, ch, user) == [];
    }
  }

  lemma LeaveMirrored(local: set<string>, dms: Dms, dir: Directory, r: Request, ch: Choice, user: string, c: Sidebar)
    requires Structured(dms) && Possible(dms, r, ch) && Accepted(dms, dir, r) && r.LeaveGroup?
    requires InSync(dms, user, c)
    ensures Mirrors(Row(dms, dir, r, ch), Subject(dms, r, ch), user, Hear(dir, user, c, EventsFor(local, dms, dir, r, ch, user)))
  {
    hide Hear, HasBlock;
    assert dms[r.id].members.Keys - {r.caller} != {} ==> ch.heir in dms[r.id].members && ch.heir != r.caller;
    hide Possible;
    var id := r.id;
    assert RowFits(dms[id]) && Mirrors(dms[id], id, user, c);
    assert (dms[id].members - {r.caller}).Keys == dms[id].members.Keys - {r.caller};
    if user == r.caller {
      HearTwo(dir, user, c, Message(id, r.caller), Closed(id));
    } else if user in dms[id].members {
      HearFour(dir, user, c, Message(id, r.caller), OwnerUpdated(id, ch.heir), Message(id, r.caller), MemberRemoved(id, r.caller));
      HearTwo(dir, user, c, Message(id, r.caller), MemberRemoved(id, r.caller));
    } else {
      HearNone(dir, user, c);
    }
  }

  lemma StepKeepsMirror(local: set<string>, dms: Dms, dir: Directory, r: Request, ch: Choice, user: string, c: Sidebar)
    requires Structured(dms) && Possible(dms, r, ch) && user in local && InSync(dms, user, c)
    ensures InSync(After(dms, dir, r, ch), user, Replay(c, Sent(local, dms, dir, r, ch, user)))
  {
    hide Structured, Possible, Accepted, EventsFor, Row, Subject, Mirrors;
    if Accepted(dms, dir, r) {
      var id, events := Subject(dms, r, ch), EventsFor(local, dms, dir, r, ch, user);
      var after, now := After(dms, dir, r, ch), Hear(dir, user, c, events);
      DeliveredIsHeard(dir, user, c, events);
      AboutSubject(local, dms, dir, r, ch, user);
      SubjectMirrored(local, dms, dir, r, ch, user, c);
      forall other | other in now && other != id ensures other in dms {
        OthersUntouched(dir, user, c, events, id, other);
      }
      forall other | other in dms && other != id ensures Mirrors(after[other], other, user, now) {
        OthersUntouched(dir, user, c, events, id, other);
        SameEntry(dms[other], other, user, c, now);
      }
    }
  }

  lemma SameEntry(dm: Dm, id: string, user: string, c: Sidebar, now: Sidebar)
    requires Mirrors(dm, id, user, c)
    requires (id in now <==> id in c) && (id in c ==> now[id] == c[id])
    ensures Mirrors(dm, id, user, now)
  {
  }

  // ---------------------------------------------------------------------
  // Whole runs
  // ---------------------------------------------------------------------

  ghost function SidebarAfter(local: set<string>, start: Dms, user: string, c: Sidebar, run: seq<Step>): Sidebar {
    if run == [] then c
    else
      var n := |run| - 1;
      Replay(SidebarAfter(local, start, user, c, run[..n]),
             Sent(local, DmsAfter(start, run[..n]), run[n].dir, run[n].request, run[n].choice, user))
  }

  /**
   On every run, the sidebar of a connected local user shows each group the user
   has open with exactly its stored owner and members, and no group the user is
   not a member of.
   */
  lemma {:induction false} GroupMirrorIsExact(local: set<string>, start: Dms, user: string, c: Sidebar, run: seq<Step>)
    requires Structured(start) && PairsUnique(start) && Running(start, run)
    requires user in local && InSync(start, user, c)
    ensures InSync(DmsAfter(start, run), user, SidebarAfter(local, start, user, c, run))
  {
    hide Structured, PairsUnique, After, InSync, Sent, Possible;
    if run != [] {
      var n := |run| - 1;
      GroupMirrorIsExact(local, start, user, c, run[..n]);
      EveryRunIsStructured(start, run[..n]);
      StepKeepsMirror(local, DmsAfter(start, run[..n]), run[n].dir, run[n].request, run[n].choice, user,
                      SidebarAfter(local, start, user, c, run[..n]));
    }
  }

  // ---------------------------------------------------------------------
  // Closed groups
  // ---------------------------------------------------------------------

  /** Requests that send a system message through sendToDmMembers or a plain loop, which does not resurface. */
  predicate SendsNotice(r: Request, id: string) {
    (r.AddMember? || r.LeaveGroup? || r.Kick? || r.Transfer?) && r.id == id
  }

  /**
   A member who closed a group has it back on the list, without its members,
   exactly when a membership or ownership notice is sent whose author the member
   has not blocked and shares no two-member channel of the list with.
   */
  lemma ClosedGroupReappearsIff(local: set<string>, dms: Dms, dir: Directory, r: Request, ch: Choice, user: string, c: Sidebar, id: string)
    requires Structured(dms) && Possible(dms, r, ch)
    requires id in dms && dms[id].owner.Some? && user in dms[id].members && dms[id].members[user] && id !in c
    requires user in After(dms, dir, r, ch)[id].members && After(dms, dir, r, ch)[id].members[user]
    ensures var now := Replay(c, Sent(local, dms, dir, r, ch, user));
            && (id in now <==> Accepted(dms, dir, r) && SendsNotice(r, id) && !HasBlock(dir, user, r.caller) && !KnowsPair(c, r.caller))
            && (id in now ==> now[id].members <= {r.caller})
  {
    hide Structured, Possible, Accepted, EventsFor, Row, Hear, KnowsPair;
    if Accepted(dms, dir, r) {
      DeliveredIsHeard(dir, user, c, EventsFor(local, dms, dir, r, ch, user));
      if SendsNotice(r, id) {
        NoticeReaches(local, dms, dir, r, ch, user, c);
      } else if id != Subject(dms, r, ch) {
        AboutSubject(local, dms, dir, r, ch, user);
        OthersUntouched(dir, user, c, EventsFor(local, dms, dir, r, ch, user), Subject(dms, r, ch), id);
      } else {
        NothingShown(local, dms, dir, r, ch, user, c);
      }
    }
  }

  /** Without a notice, a channel that stays closed for the user is not shown to the user. */
  lemma NothingShown(local: set<string>, dms: Dms, dir: Directory, r: Request, ch: Choice, user: string, c: Sidebar)
    requires Possible(dms, r, ch) && Accepted(dms, dir, r)
    requires var id := Subject(dms, r, ch); id in dms && dms[id].owner.Some? && id !in c && !SendsNotice(r, id)
    requires var row := Row(dms, dir, r, ch); user in row.members && row.members[user]
    ensures Subject(dms, r, ch) !in Hear(dir, user, c, EventsFor(local, dms, dir, r, ch, user))
  {
  }

  /** The list after a notice: a partial entry, unless the author is blocked or known from a two-member channel. */
  predicate NoticeShown(dir: Directory, user: string, c: Sidebar, id: string, author: string, now: Sidebar) {
    && (id in now <==> !HasBlock(dir, user, author) && !KnowsPair(c, author))
    && (id in now ==> now[id].members <= {author})
  }

  /** The steps of a notice on a list without the channel. */
  lemma NoticeShows(dir: Directory, user: string, c: Sidebar, id: string, author: string, owner: string, other: string)
    requires id !in c
    ensures NoticeShown(dir, user, c, id, author, Hear(dir, user, c, [Message(id, author), MemberRemoved(id, other)]))
    ensures NoticeShown(dir, user, c, id, author,
                        Hear(dir, user, c, [Message(id, author), OwnerUpdated(id, owner), Message(id, author), MemberRemoved(id, other)]))
    ensures NoticeShown(dir, user, c, id, author, Hear(dir, user, c, [OwnerUpdated(id, owner), Message(id, author)]))
    ensures NoticeShown(dir, user, c, id, author, Hear(dir, user, c, [MemberAdded(id, other), Message(id, author)]))
  {
    hide KnowsPair, Hear, HasBlock;
    HearTwo(dir, user, c, Message(id, author), MemberRemoved(id, other));
    HearFour(dir, user, c, Message(id, author), OwnerUpdated(id, owner), Message(id, author), MemberRemoved(id, other));
    HearTwo(dir, user, c, OwnerUpdated(id, owner), Message(id, author));
    HearTwo(dir, user, c, MemberAdded(id, other), Message(id, author));
  }

  lemma NoticeReaches(local: set<string>, dms: Dms, dir: Directory, r: Request, ch: Choice, user: string, c: Sidebar)
    requires Possible(dms, r, ch) && Accepted(dms, dir, r) && SendsNotice(r, Subject(dms, r, ch))
    requires user in dms[r.id].members && user in Row(dms, dir, r, ch).members && dms[r.id].members[user] && r.id !in c
    ensures NoticeShown(dir, user, c, r.id, r.caller, Hear(dir, user, c, EventsFor(local, dms, dir, r, ch, user)))
  {
    hide NoticeShown, Hear;
    NoticeShows(dir, user, c, r.id, r.caller, if r.Transfer? then r.target else ch.heir,
                if r.AddMember? || r.Kick? then r.target else r.caller);
  }

  // ---------------------------------------------------------------------
  // A closed group that comes back
  // ---------------------------------------------------------------------

  const TRIO_CLOSING := Step(TRIO, CloseDm("g", "b"), Choice("g", "g", "g"))
  const CLOSED_GROUP: Dms := map["g" := Dm(Some("a"), false, map["a" := false, "b" := true, "c" := false])]

  lemma TrioClosed()
    ensures var (r, ch) := (TRIO_CLOSING.request, TRIO_CLOSING.choice);
            Possible(TRIO_GROUP, r, ch) && After(TRIO_GROUP, TRIO, r, ch) == CLOSED_GROUP
            && Sent({"a", "b", "c"}, TRIO_GROUP, TRIO, r, ch, "b") == [Closed("g")]
  {
    var events := [Closed("g")];
    assert events[..0] == [];
    assert TRIO_GROUP["g"].members["b" := true] == CLOSED_GROUP["g"].members;
  }

  lemma TrioKicked()
    ensures var (r, ch) := (Request.Kick("g", "a", "c"), Choice("g", "g", "a"));
            && Possible(CLOSED_GROUP, r, ch) && Accepted(CLOSED_GROUP, TRIO, r)
            && After(CLOSED_GROUP, TRIO, r, ch) == map["g" := Dm(Some("a"), false, map["a" := false, "b" := true])]
  {
    assert CLOSED_GROUP["g"].members - {"c"} == map["a" := false, "b" := true];
  }

  lemma EmptyListAfterClosing()
    ensures SidebarAfter({"a", "b", "c"}, map[], "b", map[], [TRIO_CREATION, TRIO_CLOSING]) == map[]
  {
    hide Possible, After, Sent, Apply, Mirrors;
    var local, run := {"a", "b", "c"}, [TRIO_CREATION, TRIO_CLOSING];
    var shown := SidebarAfter(local, map[], "b", map[], [TRIO_CREATION]);
    EmptyIsStructured();
    TrioCreated();
    TrioClosed();
    GroupMirrorIsExact(local, map[], "b", map[], [TRIO_CREATION]);
    assert shown.Keys <= {"g"};
    assert run[..1] == [TRIO_CREATION];
    ReplayClosed(shown, "g");
  }

  lemma ReplayClosed(c: Sidebar, id: string)
    ensures Replay(c, [Closed(id)]) == c - {id}
  {
  }

  lemma KickReappears()
    ensures var (r, ch) := (Request.Kick("g", "a", "c"), Choice("g", "g", "a"));
            var c := Replay(map[], Sent({"a", "b", "c"}, CLOSED_GROUP, TRIO, r, ch, "b"));
            "g" in c && "b" !in c["g"].members
  {
    hide Sent, Replay, EventsFor;
    TrioKicked();
    assert Structured(CLOSED_GROUP) by {
      assert CLOSED_GROUP["g"].members.Keys == {"a", "b", "c"};
    }
    hide Structured, Possible, Accepted, After;
    ClosedGroupReappearsIff({"a", "b", "c"}, CLOSED_GROUP, TRIO, Kick("g", "a", "c"), Choice("g", "g", "a"), "b", map[], "g");
  }

  /**
   A creates a group with b and c, b closes it, and a kicks c: the group is back on
   b's list without its members, although b's row still says closed.
   */
  lemma ClosedGroupComesBack()
    ensures var run := [TRIO_CREATION, TRIO_CLOSING, Step(TRIO, Kick("g", "a", "c"), Choice("g", "g", "a"))];
            var c := SidebarAfter({"a", "b", "c"}, map[], "b", map[], run);
            && Running(map[], run)
            && DmsAfter(map[], run) == map["g" := Dm(Some("a"), false, map["a" := false, "b" := true])]
            && "g" in c && "b" !in c["g"].members
  {
    hide Possible, Accepted, After, Sent, Replay;
    var kick := Step(TRIO, Kick("g", "a", "c"), Choice("g", "g", "a"));
    var run := [TRIO_CREATION, TRIO_CLOSING, kick];
    TrioCreated();
    TrioClosed();
    TrioKicked();
    EmptyListAfterClosing();
    KickReappears();
    assert run[..2] == [TRIO_CREATION] + [TRIO_CLOSING] == [TRIO_CREATION, TRIO_CLOSING] && run == run[..2] + [kick];
    RunMore(map[], [TRIO_CREATION], TRIO_CLOSING);
    RunMore(map[], run[..2], kick);
    SidebarMore({"a", "b", "c"}, map[], "b", map[], run[..2], kick);
  }

  lemma SidebarMore(local: set<string>, start: Dms, user: string, c: Sidebar, run: seq<Step>, step: Step)
    ensures SidebarAfter(local, start, user, c, run + [step])
         == Replay(SidebarAfter(local, start, user, c, run), Sent(local, DmsAfter(start, run), step.dir, step.request, step.choice, user))
  {
  }
}
