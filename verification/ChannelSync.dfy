/**
 How each connected member's channel list is kept equal to the channels that
 member may view (packages/server/src/routes/channels.ts, lines 64-135 and
 172-987).

 `computePermissions` is any function of the user, the space, the channel's own
 overrides and its category's overrides. Tables are maps; foreign keys with ON
 DELETE CASCADE drop the overrides of a deleted channel or category.
 */
module ChannelSync {
  import opened Totals

  datatype Channel = Channel(space: string, name: string, topic: string, position: int, category: Option<string>)

  datatype Category = Category(space: string, name: string, position: int)

  datatype TargetType = Role | Member

  datatype Target = Target(kind: TargetType, id: string)

  datatype Bits = Bits(allow: nat, deny: nat)

  type Overrides = map<Target, Bits>

  datatype Policy = Policy(compute: (string, string, Overrides, Overrides) -> nat, views: nat -> bool)

  datatype World = World(
    channels: map<string, Channel>,
    categories: map<string, Category>,
    channelOverrides: map<string, Overrides>,
    categoryOverrides: map<string, Overrides>
  )

  function OverridesOf(table: map<string, Overrides>, id: string): Overrides {
    if id in table then table[id] else map[]
  }

  function Perms(policy: Policy, w: World, user: string, id: string): nat
    requires id in w.channels
  {
    var channel := w.channels[id];
    policy.compute(user, channel.space, OverridesOf(w.channelOverrides, id),
                   if channel.category.Some? then OverridesOf(w.categoryOverrides, channel.category.value) else map[])
  }

  predicate Sees(policy: Policy, w: World, user: string, id: string)
    requires id in w.channels
  {
    policy.views(Perms(policy, w, user, id))
  }

  // ---------------------------------------------------------------------
  // The client's copy
  // ---------------------------------------------------------------------

  datatype ClientEvent =
    | ChannelUpserted(id: string, channel: Channel, perms: Option<nat>)  // channel_created, channel_updated
    | ChannelDeleted(id: string, space: string)
    | CategoryCreated(category: string, row: Category)
    | CategoryUpdated(category: string, row: Category)
    | CategoryDeleted(category: string, space: string)
    | LayoutUpdated(space: string, channels: map<string, Channel>, permsById: map<string, nat>, categories: map<string, Category>)

  /** One client's lists for the space it has open, and its permissions map. */
  datatype Client = Client(channels: map<string, Channel>, perms: map<string, nat>, categories: map<string, Category>)

  function Uncategorised(channel: Channel, category: string): Channel {
    if channel.category == Some(category) then channel.(category := None) else channel
  }

  function WithoutCategory(channels: map<string, Channel>, category: string): map<string, Channel> {
    map id | id in channels :: Uncategorised(channels[id], category)
  }

  function Apply(c: Client, space: string, e: ClientEvent): Client {
    match e
    case ChannelUpserted(id, channel, perms) =>
      c.(channels := if channel.space == space then c.channels[id := channel] else c.channels,
         perms := if perms.Some? then c.perms[id := perms.value] else c.perms)
    case ChannelDeleted(id, of) =>
      c.(channels := if of == space then c.channels - {id} else c.channels, perms := c.perms - {id})
    case CategoryCreated(category, row) =>
      if row.space == space && category !in c.categories then c.(categories := c.categories[category := row]) else c
    case CategoryUpdated(category, row) =>
      if row.space == space && category in c.categories then c.(categories := c.categories[category := row]) else c
    case CategoryDeleted(category, of) =>
      if of == space then c.(channels := WithoutCategory(c.channels, category), categories := c.categories - {category}) else c
    case LayoutUpdated(of, channels, perms, categories) =>
      if of == space then Client(channels, c.perms + perms, categories) else c
  }

  function Replay(c: Client, space: string, events: seq<ClientEvent>): Client {
    if events == [] then c
    else Apply(Replay(c, space, events[..|events| - 1]), space, events[|events| - 1])
  }

  /** Exactly the channels of the space that the user may view, each with the user's permissions. */
  ghost predicate InSync(policy: Policy, w: World, user: string, space: string, c: Client) {
    && (forall id :: id in c.channels <==> id in w.channels && w.channels[id].space == space && Sees(policy, w, user, id))
    && (forall id :: id in c.channels ==> c.channels[id] == w.channels[id])
    && (forall id :: id in c.channels ==> id in c.perms && c.perms[id] == Perms(policy, w, user, id))
  }

  // ---------------------------------------------------------------------
  // The mutations
  // ---------------------------------------------------------------------

  datatype Move = Move(id: string, position: int, category: Option<string>)

  datatype Shift = Shift(id: string, position: int)

  datatype Mutation =
    | CreateChannel(id: string, channel: Channel)
    | EditChannel(id: string, channel: Channel)     // same space and category
    | RecategoriseChannel(id: string, channel: Channel)
    | DeleteChannel(id: string)
    | SetChannelOverride(id: string, target: Target, bits: Option<Bits>)
    | SetCategoryOverride(category: string, target: Target, bits: Option<Bits>)
    | SetCategory(category: string, row: Category)
    | DeleteCategory(category: string)
    | Layout(space: string, moves: seq<Move>, shifts: seq<Shift>)

  predicate CategoryFits(w: World, category: Option<string>, space: string) {
    category.Some? ==> category.value in w.categories && w.categories[category.value].space == space
  }

  /** What the routes check before they change anything. */
  predicate Valid(w: World, m: Mutation) {
    match m
    case CreateChannel(id, channel) => id !in w.channels && CategoryFits(w, channel.category, channel.space)
    case EditChannel(id, channel) =>
      id in w.channels && w.channels[id].space == channel.space && w.channels[id].category == channel.category
    case RecategoriseChannel(id, channel) =>
      id in w.channels && w.channels[id].space == channel.space && CategoryFits(w, channel.category, channel.space)
    case DeleteChannel(id) => id in w.channels
    case SetChannelOverride(id, _, _) => id in w.channels
    case SetCategoryOverride(category, _, _) => category in w.categories
    case SetCategory(category, row) => category in w.categories ==> w.categories[category].space == row.space
    case DeleteCategory(category) => category in w.categories
    case Layout(space, moves, shifts) =>
      (forall move :: move in moves ==> MoveFits(w, space, move)) && (forall shift :: shift in shifts ==> ShiftFits(w, space, shift))
  }

  predicate MoveFits(w: World, space: string, move: Move) {
    && move.id in w.channels && w.channels[move.id].space == space
    && move.position >= 0
    && CategoryFits(w, move.category, space)
  }

  predicate ShiftFits(w: World, space: string, shift: Shift) {
    && shift.id in w.categories && w.categories[shift.id].space == space
    && shift.position >= 0
  }

  function SetBits(overrides: Overrides, target: Target, bits: Option<Bits>): Overrides {
    if bits.Some? then overrides[target := bits.value] else overrides - {target}
  }

  function Moved(channels: map<string, Channel>, moves: seq<Move>): map<string, Channel> {
    if moves == [] then channels
    else
      var before, move := Moved(channels, moves[..|moves| - 1]), moves[|moves| - 1];
      if move.id in before then
        before[move.id := before[move.id].(position := move.position, category := move.category)]
      else before
  }

  function Shifted(categories: map<string, Category>, shifts: seq<Shift>): map<string, Category> {
    if shifts == [] then categories
    else
      var before, shift := Shifted(categories, shifts[..|shifts| - 1]), shifts[|shifts| - 1];
      if shift.id in before then before[shift.id := before[shift.id].(position := shift.position)] else before
  }

  function After(w: World, m: Mutation): World {
    match m
    case CreateChannel(id, channel) => w.(channels := w.channels[id := channel])
    case EditChannel(id, channel) => w.(channels := w.channels[id := channel])
    case RecategoriseChannel(id, channel) => w.(channels := w.channels[id := channel])
    case DeleteChannel(id) => w.(channels := w.channels - {id}, channelOverrides := w.channelOverrides - {id})
    case SetChannelOverride(id, target, bits) =>
      w.(channelOverrides := w.channelOverrides[id := SetBits(OverridesOf(w.channelOverrides, id), target, bits)])
    case SetCategoryOverride(category, target, bits) =>
      w.(categoryOverrides := w.categoryOverrides[category := SetBits(OverridesOf(w.categoryOverrides, category), target, bits)])
    case SetCategory(category, row) => w.(categories := w.categories[category := row])
    case DeleteCategory(category) =>
      w.(channels := WithoutCategory(w.channels, category), categories := w.categories - {category},
         categoryOverrides := w.categoryOverrides - {category})
    case Layout(_, moves, shifts) =>
      w.(channels := Moved(w.channels, moves), categories := Shifted(w.categories, shifts))
  }

  // ---------------------------------------------------------------------
  // What each connected member of the space is sent
  // ---------------------------------------------------------------------

  /** broadcastOverrideChange: the channel with the user's permissions, or its removal. */
  function Notice(policy: Policy, w: World, user: string, id: string): ClientEvent
    requires id in w.channels
  {
    if Sees(policy, w, user, id) then ChannelUpserted(id, w.channels[id], Some(Perms(policy, w, user, id)))
    else ChannelDeleted(id, w.channels[id].space)
  }

  /** The categories of the space, which every member sees. */
  function CategoriesOf(w: World, space: string): map<string, Category> {
    map id | id in w.categories && w.categories[id].space == space :: w.categories[id]
  }

  /** broadcastChannelLayout: the whole visible list, and the categories. */
  function LayoutFor(policy: Policy, w: World, user: string, space: string): ClientEvent {
    var visible := set id | id in w.channels && w.channels[id].space == space && Sees(policy, w, user, id);
    LayoutUpdated(space, map id | id in visible :: w.channels[id],
                  map id | id in visible :: Perms(policy, w, user, id), CategoriesOf(w, space))
  }

  function InCategory(w: World, space: string, category: string): set<string> {
    set id | id in w.channels && w.channels[id].space == space && w.channels[id].category == Some(category)
  }

  /** One notice per channel of `ids`, in some order. */
  ghost predicate NoticesFor(policy: Policy, w: World, user: string, ids: set<string>, events: seq<ClientEvent>)
    requires ids <= w.channels.Keys
    decreases |events|
  {
    if events == [] then ids == {}
    else exists id :: id in ids && events[|events| - 1] == Notice(policy, w, user, id)
                      && NoticesFor(policy, w, user, ids - {id}, events[..|events| - 1])
  }

  function SpaceOf(w: World, m: Mutation): string
    requires Valid(w, m)
  {
    match m
    case CreateChannel(_, channel) => channel.space
    case EditChannel(_, channel) => channel.space
    case RecategoriseChannel(_, channel) => channel.space
    case DeleteChannel(id) => w.channels[id].space
    case SetChannelOverride(id, _, _) => w.channels[id].space
    case SetCategoryOverride(category, _, _) => w.categories[category].space
    case SetCategory(_, row) => row.space
    case DeleteCategory(category) => w.categories[category].space
    case Layout(space, _, _) => space
  }

  /** The events a connected member of the mutated space receives. */
  ghost predicate Sent(policy: Policy, w: World, m: Mutation, user: string, events: seq<ClientEvent>)
    requires Valid(w, m)
  {
    var t := After(w, m);
    match m
    case CreateChannel(id, _) =>
      events == if Sees(policy, t, user, id) then [Notice(policy, t, user, id)] else []
    case EditChannel(id, channel) =>
      events == if Sees(policy, t, user, id) then [ChannelUpserted(id, channel, None)] else []
    case RecategoriseChannel(id, _) => events == [Notice(policy, t, user, id)]
    case DeleteChannel(id) =>
      events == if Sees(policy, w, user, id) then [ChannelDeleted(id, w.channels[id].space)] else []
    case SetChannelOverride(id, _, _) => events == [Notice(policy, t, user, id)]
    case SetCategoryOverride(category, _, _) =>
      && events != [] && events[|events| - 1] == CategoryUpdated(category, w.categories[category])
      && NoticesFor(policy, t, user, InCategory(t, w.categories[category].space, category), events[..|events| - 1])
    case SetCategory(category, row) =>
      events == [if category in w.categories then CategoryUpdated(category, row) else CategoryCreated(category, row)]
    case DeleteCategory(category) =>
      var space := w.categories[category].space;
      events == [CategoryDeleted(category, space), LayoutFor(policy, t, user, space)]
    case Layout(space, _, _) => events == [LayoutFor(policy, t, user, space)]
  }

  // ---------------------------------------------------------------------
  // The tables stay well formed
  // ---------------------------------------------------------------------

  /** A channel's category exists and belongs to the channel's space. */
  ghost predicate WellFormed(w: World) {
    forall id :: id in w.channels ==> CategoryFits(w, w.channels[id].category, w.channels[id].space)
  }

  lemma {:induction false} MovedFacts(w: World, space: string, moves: seq<Move>, shifts: seq<Shift>)
    requires Valid(w, Layout(space, moves, shifts))
    ensures var channels := Moved(w.channels, moves);
            && channels.Keys == w.channels.Keys
            && forall id :: id in channels ==>
                 && channels[id].space == w.channels[id].space
                 && (channels[id] == w.channels[id]
                     || (channels[id].space == space && CategoryFits(w, channels[id].category, space)))
  {
    if moves != [] {
      MovedFacts(w, space, moves[..|moves| - 1], shifts);
      assert moves[|moves| - 1] in moves;
    }
  }

  lemma {:induction false} ShiftedFacts(categories: map<string, Category>, shifts: seq<Shift>)
    ensures var after := Shifted(categories, shifts);
            after.Keys == categories.Keys && forall id :: id in after ==> after[id].space == categories[id].space
  {
    if shifts != [] {
      ShiftedFacts(categories, shifts[..|shifts| - 1]);
    }
  }

  lemma MutationKeepsWellFormed(w: World, m: Mutation)
    requires WellFormed(w) && Valid(w, m)
    ensures WellFormed(After(w, m))
  {
    if m.Layout? {
      MovedFacts(w, m.space, m.moves, m.shifts);
      ShiftedFacts(w.categories, m.shifts);
    }
  }

  // ---------------------------------------------------------------------
  // The mirror
  // ---------------------------------------------------------------------

  /** In sync except for the channels of `stale`, which still need a notice. */
  ghost predicate InSyncBut(policy: Policy, w: World, user: string, space: string, c: Client, stale: set<string>) {
    && (forall id :: id !in stale ==>
          (id in c.channels <==> id in w.channels && w.channels[id].space == space && Sees(policy, w, user, id)))
    && (forall id :: id in c.channels && id !in stale ==>
          c.channels[id] == w.channels[id] && id in c.perms && c.perms[id] == Perms(policy, w, user, id))
  }

  lemma NoticeSettlesOne(policy: Policy, w: World, user: string, space: string, c: Client, stale: set<string>, id: string)
    requires id in w.channels && InSyncBut(policy, w, user, space, c, stale + {id})
    requires w.channels[id].space == space
    ensures InSyncBut(policy, w, user, space, Apply(c, space, Notice(policy, w, user, id)), stale - {id})
  {
  }

  lemma {:induction false} NoticesSettle(policy: Policy, w: World, user: string, space: string, c: Client, ids: set<string>, rest: set<string>, events: seq<ClientEvent>)
    requires ids <= w.channels.Keys && NoticesFor(policy, w, user, ids, events)
    requires forall id :: id in ids ==> w.channels[id].space == space
    requires InSyncBut(policy, w, user, space, c, ids + rest)
    ensures InSyncBut(policy, w, user, space, Replay(c, space, events), rest - ids)
    decreases |events|
  {
    if events != [] {
      var id :| id in ids && events[|events| - 1] == Notice(policy, w, user, id)
                && NoticesFor(policy, w, user, ids - {id}, events[..|events| - 1]);
      assert ids + rest == ids - {id} + (rest + {id});
      NoticesSettle(policy, w, user, space, c, ids - {id}, rest + {id}, events[..|events| - 1]);
      var stale := rest + {id} - (ids - {id});
      assert stale == stale + {id} && stale - {id} == rest - ids;
      NoticeSettlesOne(policy, w, user, space, Replay(c, space, events[..|events| - 1]), stale, id);
    } else {
      assert ids + rest == rest - ids;
    }
  }

  /** Nothing that decides what `id` shows differs between the two worlds. */
  ghost predicate Untouched(w: World, t: World, id: string) {
    && (id in w.channels <==> id in t.channels)
    && (id in w.channels ==>
          && w.channels[id] == t.channels[id]
          && OverridesOf(w.channelOverrides, id) == OverridesOf(t.channelOverrides, id)
          && (w.channels[id].category.Some? ==>
                OverridesOf(w.categoryOverrides, w.channels[id].category.value)
                == OverridesOf(t.categoryOverrides, w.channels[id].category.value)))
  }

  lemma StillInSync(policy: Policy, w: World, t: World, user: string, space: string, c: Client, stale: set<string>)
    requires InSync(policy, w, user, space, c)
    requires forall id :: id !in stale ==> Untouched(w, t, id)
    ensures InSyncBut(policy, t, user, space, c, stale)
  {
  }

  /** The channels a mutation may make stale on a client. */
  function Touched(w: World, m: Mutation): set<string>
    requires Valid(w, m)
  {
    match m
    case CreateChannel(id, _) => {id}
    case EditChannel(id, _) => {id}
    case RecategoriseChannel(id, _) => {id}
    case DeleteChannel(id) => {id}
    case SetChannelOverride(id, _, _) => {id}
    case SetCategoryOverride(category, _, _) => InCategory(w, w.categories[category].space, category)
    case SetCategory(_, _) => {}
    case DeleteCategory(_) => {}
    case Layout(_, _, _) => {}
  }

  lemma OnlyTouchedChange(w: World, m: Mutation, id: string)
    requires WellFormed(w) && Valid(w, m) && !m.Layout? && !m.DeleteCategory? && id !in Touched(w, m)
    ensures Untouched(w, After(w, m), id)
  {
  }

  lemma LayoutIsExact(policy: Policy, t: World, user: string, space: string, c: Client)
    ensures InSync(policy, t, user, space, Apply(c, space, LayoutFor(policy, t, user, space)))
  {
  }

  lemma ReplayOne(c: Client, space: string, e: ClientEvent)
    ensures Replay(c, space, [e]) == Apply(c, space, e)
  {
  }

  lemma SingleNotice(policy: Policy, t: World, user: string, space: string, c: Client, id: string)
    requires id in t.channels && t.channels[id].space == space
    requires InSyncBut(policy, t, user, space, c, {id})
    ensures InSync(policy, t, user, space, Replay(c, space, [Notice(policy, t, user, id)]))
  {
  }

  /** Only the channel a channel mutation names can be stale before its events arrive. */
  lemma OneStale(policy: Policy, w: World, m: Mutation, user: string, c: Client)
    requires WellFormed(w) && Valid(w, m)
    requires m.CreateChannel? || m.EditChannel? || m.RecategoriseChannel? || m.DeleteChannel? || m.SetChannelOverride?
    requires InSync(policy, w, user, SpaceOf(w, m), c)
    ensures InSyncBut(policy, After(w, m), user, SpaceOf(w, m), c, {m.id})
  {
    hide InSync, InSyncBut, Untouched, WellFormed, Valid, After;
    forall id | id !in {m.id} ensures Untouched(w, After(w, m), id) {
      OnlyTouchedChange(w, m, id);
    }
    StillInSync(policy, w, After(w, m), user, SpaceOf(w, m), c, {m.id});
  }

  lemma EditOrRemovalKeepsMirror(policy: Policy, w: World, m: Mutation, user: string, c: Client, events: seq<ClientEvent>)
    requires WellFormed(w) && Valid(w, m) && (m.EditChannel? || m.DeleteChannel?)
    requires Sent(policy, w, m, user, events) && InSync(policy, w, user, SpaceOf(w, m), c)
    requires InSyncBut(policy, After(w, m), user, SpaceOf(w, m), c, {m.id})
    ensures InSync(policy, After(w, m), user, SpaceOf(w, m), Replay(c, SpaceOf(w, m), events))
  {
    if m.EditChannel? {
      assert Perms(policy, After(w, m), user, m.id) == Perms(policy, w, user, m.id);
    }
    if events != [] {
      ReplayOne(c, SpaceOf(w, m), events[0]);
      assert events == [events[0]];
    }
  }

  lemma ChannelMutationKeepsMirror(policy: Policy, w: World, m: Mutation, user: string, c: Client, events: seq<ClientEvent>)
    requires WellFormed(w) && Valid(w, m)
    requires m.CreateChannel? || m.EditChannel? || m.RecategoriseChannel? || m.DeleteChannel? || m.SetChannelOverride?
    requires Sent(policy, w, m, user, events) && InSync(policy, w, user, SpaceOf(w, m), c)
    ensures InSync(policy, After(w, m), user, SpaceOf(w, m), Replay(c, SpaceOf(w, m), events))
  {
    OneStale(policy, w, m, user, c);
    if m.EditChannel? || m.DeleteChannel? {
      EditOrRemovalKeepsMirror(policy, w, m, user, c, events);
    } else if events != [] {
      hide InSync, InSyncBut;
      SingleNotice(policy, After(w, m), user, SpaceOf(w, m), c, m.id);
    } else {
      HiddenCreationKeepsMirror(policy, w, m, user, c);
    }
  }

  lemma HiddenCreationKeepsMirror(policy: Policy, w: World, m: Mutation, user: string, c: Client)
    requires WellFormed(w) && Valid(w, m) && m.CreateChannel? && !Sees(policy, After(w, m), user, m.id)
    requires InSync(policy, w, user, SpaceOf(w, m), c)
    requires InSyncBut(policy, After(w, m), user, SpaceOf(w, m), c, {m.id})
    ensures InSync(policy, After(w, m), user, SpaceOf(w, m), c)
  {
  }

  /** The events about a category row leave the channels alone. */
  lemma CategoryEventKeepsSync(policy: Policy, w: World, user: string, space: string, c: Client, e: ClientEvent)
    requires e.CategoryCreated? || e.CategoryUpdated?
    ensures InSync(policy, w, user, space, Apply(c, space, e)) <==> InSync(policy, w, user, space, c)
  {
  }

  lemma CategoryMutationKeepsMirror(policy: Policy, w: World, m: Mutation, user: string, c: Client, events: seq<ClientEvent>)
    requires WellFormed(w) && Valid(w, m)
    requires m.SetCategoryOverride? || m.SetCategory?
    requires Sent(policy, w, m, user, events) && InSync(policy, w, user, SpaceOf(w, m), c)
    ensures InSync(policy, After(w, m), user, SpaceOf(w, m), Replay(c, SpaceOf(w, m), events))
  {
    var t, space, n := After(w, m), SpaceOf(w, m), |events| - 1;
    var ids := Touched(w, m);
    forall id | id !in ids ensures Untouched(w, t, id) {
      OnlyTouchedChange(w, m, id);
    }
    StillInSync(policy, w, t, user, space, c, ids);
    hide Untouched, Apply, WellFormed, Perms;
    if m.SetCategoryOverride? {
      assert ids == InCategory(t, space, m.category) && ids + {} == ids && {} - ids == {};
      NoticesSettle(policy, t, user, space, c, ids, {}, events[..n]);
      NothingStale(policy, t, user, space, Replay(c, space, events[..n]));
      CategoryEventKeepsSync(policy, t, user, space, Replay(c, space, events[..n]), events[n]);
    } else {
      assert events[..n] == [];
      NothingStale(policy, t, user, space, c);
      CategoryEventKeepsSync(policy, t, user, space, c, events[n]);
    }
  }

  lemma NothingStale(policy: Policy, w: World, user: string, space: string, c: Client)
    requires InSyncBut(policy, w, user, space, c, {})
    ensures InSync(policy, w, user, space, c)
  {
  }

  lemma LayoutMutationKeepsMirror(policy: Policy, w: World, m: Mutation, user: string, c: Client, events: seq<ClientEvent>)
    requires Valid(w, m) && (m.DeleteCategory? || m.Layout?)
    requires Sent(policy, w, m, user, events)
    ensures InSync(policy, After(w, m), user, SpaceOf(w, m), Replay(c, SpaceOf(w, m), events))
  {
    var t, space, n := After(w, m), SpaceOf(w, m), |events| - 1;
    assert Replay(c, space, events) == Apply(Replay(c, space, events[..n]), space, LayoutFor(policy, t, user, space));
    LayoutIsExact(policy, t, user, space, Replay(c, space, events[..n]));
  }

  /** Nothing about another space's channel changes. */
  lemma OtherSpaceUntouched(w: World, m: Mutation, id: string)
    requires WellFormed(w) && Valid(w, m) && id in w.channels && w.channels[id].space != SpaceOf(w, m)
    ensures Untouched(w, After(w, m), id)
  {
    if m.Layout? {
      LayoutMovesOwnChannels(w, m);
    }
    assert CategoryFits(w, w.channels[id].category, w.channels[id].space);
  }

  lemma NoneJoinSpace(w: World, m: Mutation, id: string)
    requires Valid(w, m) && id in After(w, m).channels && After(w, m).channels[id].space != SpaceOf(w, m)
    ensures id in w.channels && w.channels[id].space == After(w, m).channels[id].space
  {
    if m.Layout? {
      LayoutMovesOwnChannels(w, m);
    }
  }

  lemma SamePerms(policy: Policy, w: World, t: World, user: string, id: string)
    requires id in w.channels && Untouched(w, t, id)
    ensures id in t.channels && t.channels[id] == w.channels[id] && Perms(policy, w, user, id) == Perms(policy, t, user, id)
  {
  }

  /** A mutation of one space leaves the clients of another in step without sending them anything. */
  lemma OtherSpacesUntouched(policy: Policy, w: World, m: Mutation, user: string, space: string, c: Client)
    requires WellFormed(w) && Valid(w, m) && space != SpaceOf(w, m)
    requires InSync(policy, w, user, space, c)
    ensures InSync(policy, After(w, m), user, space, c)
  {
    hide WellFormed, Valid, After, SpaceOf, Untouched, Perms;
    var t := After(w, m);
    forall id | id in w.channels && w.channels[id].space == space
      ensures id in t.channels && t.channels[id] == w.channels[id] && Perms(policy, w, user, id) == Perms(policy, t, user, id)
    {
      OtherSpaceUntouched(w, m, id);
      SamePerms(policy, w, t, user, id);
    }
    forall id | id in t.channels && t.channels[id].space == space ensures id in w.channels && w.channels[id].space == space {
      NoneJoinSpace(w, m, id);
    }
  }

  lemma LayoutMovesOwnChannels(w: World, m: Mutation)
    requires m.Layout? && Valid(w, m)
    ensures var channels := Moved(w.channels, m.moves);
            && channels.Keys == w.channels.Keys
            && forall id :: id in channels ==>
                 && channels[id].space == w.channels[id].space
                 && (w.channels[id].space != m.space ==> channels[id] == w.channels[id])
  {
    MovedFacts(w, m.space, m.moves, m.shifts);
    OnlyOwnMoved(w.channels, m.space, m.moves);
  }

  lemma {:induction false} OnlyOwnMoved(channels: map<string, Channel>, space: string, moves: seq<Move>)
    requires forall move :: move in moves ==> move.id in channels && channels[move.id].space == space
    ensures var after := Moved(channels, moves);
            after.Keys == channels.Keys && forall id :: id in channels && channels[id].space != space ==> after[id] == channels[id]
  {
    if moves != [] {
      OnlyOwnMoved(channels, space, moves[..|moves| - 1]);
      assert moves[|moves| - 1] in moves;
    }
  }

  // ---------------------------------------------------------------------
  // Whole runs
  // ---------------------------------------------------------------------

  /** One mutation together with what one given user was sent for it. */
  datatype Step = Step(mutation: Mutation, events: seq<ClientEvent>)

  ghost function WorldAfter(start: World, run: seq<Step>): World {
    if run == [] then start
    else After(WorldAfter(start, run[..|run| - 1]), run[|run| - 1].mutation)
  }

  ghost function ClientAfter(start: Client, space: string, run: seq<Step>): Client {
    if run == [] then start
    else Replay(ClientAfter(start, space, run[..|run| - 1]), space, run[|run| - 1].events)
  }

  /** Every mutation passed its checks, and the member of `space` was sent what the routes send. */
  ghost predicate Served(policy: Policy, start: World, user: string, space: string, run: seq<Step>) {
    run != [] ==>
      var n := |run| - 1;
      var w := WorldAfter(start, run[..n]);
      && Served(policy, start, user, space, run[..n])
      && Valid(w, run[n].mutation)
      && if SpaceOf(w, run[n].mutation) == space then Sent(policy, w, run[n].mutation, user, run[n].events)
         else run[n].events == []
  }

  lemma MutationKeepsMirror(policy: Policy, w: World, m: Mutation, user: string, space: string, c: Client, events: seq<ClientEvent>)
    requires WellFormed(w) && Valid(w, m) && InSync(policy, w, user, space, c)
    requires if SpaceOf(w, m) == space then Sent(policy, w, m, user, events) else events == []
    ensures InSync(policy, After(w, m), user, space, Replay(c, space, events))
  {
    hide InSync, WellFormed, Valid, Sent, After;
    if SpaceOf(w, m) != space {
      OtherSpacesUntouched(policy, w, m, user, space, c);
    } else if m.DeleteCategory? || m.Layout? {
      LayoutMutationKeepsMirror(policy, w, m, user, c, events);
    } else if m.SetCategoryOverride? || m.SetCategory? {
      CategoryMutationKeepsMirror(policy, w, m, user, c, events);
    } else {
      ChannelMutationKeepsMirror(policy, w, m, user, c, events);
    }
  }

  /**
   Whatever permissions are computed, and after any run of channel, category,
   override and layout mutations, a client that started in step holds exactly
   the channels of its space that its user may view, with the stored rows and
   the computed permissions.
   */
  lemma {:induction false} MirrorIsExact(policy: Policy, start: World, user: string, space: string, c: Client, run: seq<Step>)
    requires WellFormed(start) && InSync(policy, start, user, space, c)
    requires Served(policy, start, user, space, run)
    ensures WellFormed(WorldAfter(start, run))
    ensures InSync(policy, WorldAfter(start, run), user, space, ClientAfter(c, space, run))
  {
    if run != [] {
      var n := |run| - 1;
      var w := WorldAfter(start, run[..n]);
      MirrorIsExact(policy, start, user, space, c, run[..n]);
      MutationKeepsWellFormed(w, run[n].mutation);
      MutationKeepsMirror(policy, w, run[n].mutation, user, space, ClientAfter(c, space, run[..n]), run[n].events);
    }
  }

  // ---------------------------------------------------------------------
  // The list of categories
  // ---------------------------------------------------------------------

  /** Notices are about channels only. */
  lemma {:induction false} NoticesKeepCategories(policy: Policy, w: World, user: string, space: string, c: Client, ids: set<string>, events: seq<ClientEvent>)
    requires ids <= w.channels.Keys && NoticesFor(policy, w, user, ids, events)
    ensures Replay(c, space, events).categories == c.categories
    decreases |events|
  {
    if events != [] {
      var id :| id in ids && events[|events| - 1] == Notice(policy, w, user, id)
                && NoticesFor(policy, w, user, ids - {id}, events[..|events| - 1]);
      NoticesKeepCategories(policy, w, user, space, c, ids - {id}, events[..|events| - 1]);
    }
  }

  lemma ShiftsOwnCategories(w: World, m: Mutation, space: string)
    requires m.Layout? && Valid(w, m) && space != m.space
    ensures CategoriesOf(After(w, m), space) == CategoriesOf(w, space)
  {
    OnlyOwnShifted(w.categories, m.space, m.shifts);
  }

  lemma {:induction false} OnlyOwnShifted(categories: map<string, Category>, space: string, shifts: seq<Shift>)
    requires forall shift :: shift in shifts ==> shift.id in categories && categories[shift.id].space == space
    ensures var after := Shifted(categories, shifts);
            after.Keys == categories.Keys && forall id :: id in categories && categories[id].space != space ==> after[id] == categories[id]
    ensures forall id :: id in categories ==> Shifted(categories, shifts)[id].space == categories[id].space
  {
    if shifts != [] {
      OnlyOwnShifted(categories, space, shifts[..|shifts| - 1]);
      assert shifts[|shifts| - 1] in shifts;
    }
  }

  lemma MutationKeepsCategories(policy: Policy, w: World, m: Mutation, user: string, space: string, c: Client, events: seq<ClientEvent>)
    requires Valid(w, m) && c.categories == CategoriesOf(w, space)
    requires if SpaceOf(w, m) == space then Sent(policy, w, m, user, events) else events == []
    ensures Replay(c, space, events).categories == CategoriesOf(After(w, m), space)
  {
    hide Perms, Sees;
    if m.DeleteCategory? || m.Layout? {
      if SpaceOf(w, m) == space {
        var n := |events| - 1;
        assert events[n] == LayoutFor(policy, After(w, m), user, space);
      } else if m.Layout? {
        ShiftsOwnCategories(w, m, space);
      }
    } else {
      RowKeepsCategories(policy, w, m, user, space, c, events);
    }
  }

  /** Only what stores, deletes or moves a category of the space changes its categories. */
  lemma CategoriesUnmoved(w: World, m: Mutation, space: string)
    requires Valid(w, m) && !m.DeleteCategory? && !m.Layout?
    requires SpaceOf(w, m) != space || !m.SetCategory?
    ensures CategoriesOf(After(w, m), space) == CategoriesOf(w, space)
  {
  }

  lemma RowKeepsCategories(policy: Policy, w: World, m: Mutation, user: string, space: string, c: Client, events: seq<ClientEvent>)
    requires Valid(w, m) && c.categories == CategoriesOf(w, space) && !m.DeleteCategory? && !m.Layout?
    requires if SpaceOf(w, m) == space then Sent(policy, w, m, user, events) else events == []
    ensures Replay(c, space, events).categories == CategoriesOf(After(w, m), space)
  {
    hide Perms, Sees;
    if SpaceOf(w, m) != space {
      CategoriesUnmoved(w, m, space);
    } else if m.SetCategoryOverride? {
      var t, n := After(w, m), |events| - 1;
      NoticesKeepCategories(policy, t, user, space, c, InCategory(t, space, m.category), events[..n]);
    } else if events != [] {
      ReplayOne(c, space, events[0]);
      assert events == [events[0]];
    }
  }

  /** After any run a client that started in step lists exactly the categories of its space, with the stored names and positions. */
  lemma {:induction false} CategoryListIsExact(policy: Policy, start: World, user: string, space: string, c: Client, run: seq<Step>)
    requires c.categories == CategoriesOf(start, space) && Served(policy, start, user, space, run)
    ensures ClientAfter(c, space, run).categories == CategoriesOf(WorldAfter(start, run), space)
  {
    hide CategoriesOf, Sent, After, Valid;
    if run != [] {
      var n := |run| - 1;
      CategoryListIsExact(policy, start, user, space, c, run[..n]);
      MutationKeepsCategories(policy, WorldAfter(start, run[..n]), run[n].mutation, user, space, ClientAfter(c, space, run[..n]), run[n].events);
    }
  }
}
