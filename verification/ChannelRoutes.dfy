/**
 The channel, category, override and layout handlers as the server runs them
 (packages/server/src/routes/channels.ts, lines 172-987): each checks, changes
 the tables, then loops over the connected users. Every handler is proved to
 make one mutation of ChannelSync and to send each connected member exactly what
 that module says.
 */
module ChannelRoutes {
  import opened Totals
  import opened ChannelSync

  type Outbox = map<string, seq<ClientEvent>>

  /** What the outboxes gained is what the mutation owes each connected user. */
  ghost predicate Broadcast(policy: Policy, w: World, m: Mutation, online: map<string, set<string>>, was: Outbox, now: Outbox)
    requires Valid(w, m) && online.Keys <= was.Keys && online.Keys <= now.Keys
  {
    forall user :: user in online ==>
      && was[user] <= now[user]
      && if SpaceOf(w, m) in online[user] then Sent(policy, w, m, user, now[user][|was[user]|..])
         else now[user] == was[user]
  }

  /** A member's outbox gained one notice per channel of `ids`; anyone else's gained nothing. */
  ghost predicate Noticed(policy: Policy, w: World, user: string, member: bool, ids: set<string>, was: seq<ClientEvent>, now: seq<ClientEvent>)
    requires ids <= w.channels.Keys
  {
    was <= now && if member then NoticesFor(policy, w, user, ids, now[|was|..]) else now == was
  }

  lemma OneMoreNotice(policy: Policy, w: World, user: string, member: bool, ids: set<string>, id: string,
                      was: seq<ClientEvent>, mid: seq<ClientEvent>, now: seq<ClientEvent>)
    requires ids <= w.channels.Keys && id in w.channels && id !in ids
    requires Noticed(policy, w, user, member, ids, was, mid)
    requires now == mid + if member then [Notice(policy, w, user, id)] else []
    ensures Noticed(policy, w, user, member, ids + {id}, was, now)
  {
    if member {
      var events, more := mid[|was|..], now[|was|..];
      assert more == events + [Notice(policy, w, user, id)];
      assert more[..|more| - 1] == events && ids + {id} - {id} == ids;
    }
  }

  /** A member got the notices of the category's channels and then the category itself. */
  ghost predicate CategoryNoticed(policy: Policy, w: World, user: string, member: bool, space: string, category: string,
                                  was: seq<ClientEvent>, now: seq<ClientEvent>)
  {
    && was <= now
    && if member then
         var events := now[|was|..];
         events != [] && category in w.categories && events[|events| - 1] == CategoryUpdated(category, w.categories[category])
         && NoticesFor(policy, w, user, InCategory(w, space, category), events[..|events| - 1])
       else now == was
  }

  lemma NoticesThenCategory(policy: Policy, w: World, user: string, member: bool, space: string, category: string,
                            was: seq<ClientEvent>, mid: seq<ClientEvent>, now: seq<ClientEvent>)
    requires Noticed(policy, w, user, member, InCategory(w, space, category), was, mid)
    requires category in w.categories && now == mid + if member then [CategoryUpdated(category, w.categories[category])] else []
    ensures CategoryNoticed(policy, w, user, member, space, category, was, now)
  {
    if member {
      assert now[|was|..] == mid[|was|..] + [CategoryUpdated(category, w.categories[category])];
    }
  }

  lemma CategoryNoticedIsSent(policy: Policy, w: World, m: Mutation, user: string, member: bool, was: seq<ClientEvent>, now: seq<ClientEvent>)
    requires Valid(w, m) && m.SetCategoryOverride?
    requires CategoryNoticed(policy, After(w, m), user, member, SpaceOf(w, m), m.category, was, now)
    ensures was <= now && if member then Sent(policy, w, m, user, now[|was|..]) else now == was
  {
  }

  function Patched(row: Channel, name: Option<string>, topic: Option<string>, position: Option<int>, category: Option<Option<string>>): Channel {
    row.(name := if name.Some? then name.value else row.name,
         topic := if topic.Some? then topic.value else row.topic,
         position := if position.Some? then position.value else row.position,
         category := if category.Some? then category.value else row.category)
  }

  /** One override was set or removed: exactly the given bits for the target, or none; every other override is as it was. */
  ghost predicate Stored(was: map<string, Overrides>, now: map<string, Overrides>, id: string, target: Target, bits: Option<Bits>) {
    && (bits.Some? ==>
          && id in now && target in now[id]
          && now[id][target].allow == bits.value.allow && now[id][target].deny == bits.value.deny)
    && (bits.None? ==> id !in now || target !in now[id])
    && (forall other :: other != target ==>
          (id in now && other in now[id] <==> id in was && other in was[id])
          && (id in now && other in now[id] ==> now[id][other] == was[id][other]))
    && (forall other :: other != id ==> (other in now <==> other in was) && (other in now ==> now[other] == was[other]))
  }

  predicate NameFits(name: string) {
    1 <= |name| <= 100
  }

  /** The PATCH body passes every check; names arrive trimmed. */
  predicate PatchFits(w: World, id: string, name: Option<string>, topic: Option<string>, position: Option<int>, category: Option<Option<string>>) {
    && id in w.channels
    && (name.Some? ==> NameFits(name.value))
    && (position.Some? ==> position.value >= 0)
    && (category.Some? ==> CategoryFits(w, category.value, w.channels[id].space))
    && !(name.None? && topic.None? && position.None? && category.None?)
  }

  function PatchOf(w: World, id: string, name: Option<string>, topic: Option<string>, position: Option<int>, category: Option<Option<string>>): Mutation
    requires id in w.channels
  {
    var row := Patched(w.channels[id], name, topic, position, category);
    if category.Some? then RecategoriseChannel(id, row) else EditChannel(id, row)
  }

  class ChannelServer {
    const policy: Policy
    var channels: map<string, Channel>
    var categories: map<string, Category>
    var channelOverrides: map<string, Overrides>
    var categoryOverrides: map<string, Overrides>
    var online: map<string, set<string>>  // the spaces of each connected user
    var outbox: Outbox

    ghost predicate Ready()
      reads this
    {
      online.Keys <= outbox.Keys
    }

    function Tables(): World
      reads this
    {
      World(channels, categories, channelOverrides, categoryOverrides)
    }

    constructor (policy: Policy)
      ensures Ready() && this.policy == policy && Tables() == World(map[], map[], map[], map[])
    {
      this.policy := policy;
      channels, categories, channelOverrides, categoryOverrides := map[], map[], map[], map[];
      online, outbox := map[], map[];
    }

    method SendToUser(user: string, e: ClientEvent)
      requires Ready() && user in online
      modifies this`outbox
      ensures outbox == old(outbox)[user := old(outbox)[user] + [e]]
    {
      outbox := outbox[user := outbox[user] + [e]];
    }

    method SendToSpace(space: string, e: ClientEvent)
      requires Ready()
      modifies this`outbox
      ensures Ready()
      ensures forall user :: user in online ==>
                outbox[user] == old(outbox)[user] + if space in online[user] then [e] else []
    {
      var todo := online.Keys;
      while todo != {}
        invariant Ready() && todo <= online.Keys
        invariant forall user :: user in online ==>
                    outbox[user] == old(outbox)[user] + if user !in todo && space in online[user] then [e] else []
        decreases todo
      {
        var user :| user in todo;
        if space in online[user] {
          SendToUser(user, e);
        }
        todo := todo - {user};
      }
    }

    method BroadcastOverrideChange(space: string, id: string)
      requires Ready() && id in channels && channels[id].space == space
      modifies this`outbox
      ensures Ready()
      ensures forall user :: user in online ==>
                outbox[user] == old(outbox)[user] + if space in online[user] then [Notice(policy, Tables(), user, id)] else []
    {
      var w := Tables();
      var todo := online.Keys;
      while todo != {}
        invariant Ready() && todo <= online.Keys
        invariant forall user :: user in online ==>
                    outbox[user] == old(outbox)[user]
                      + if user !in todo && space in online[user] then [Notice(policy, w, user, id)] else []
        decreases todo
      {
        var user :| user in todo;
        if space in online[user] {
          var perms := Perms(policy, w, user, id);
          if policy.views(perms) {
            SendToUser(user, ChannelUpserted(id, channels[id], Some(perms)));
          } else {
            SendToUser(user, ChannelDeleted(id, space));
          }
        }
        todo := todo - {user};
      }
    }

    /** One round of notices per channel of `ids`. */
    method BroadcastEach(space: string, ids: set<string>)
      requires Ready() && ids <= channels.Keys
      requires forall id :: id in ids ==> channels[id].space == space
      modifies this`outbox
      ensures Ready()
      ensures forall user :: user in online ==>
                Noticed(policy, Tables(), user, space in online[user], ids, old(outbox)[user], outbox[user])
    {
      var w := Tables();
      var todo := ids;
      forall user | user in online ensures Noticed(policy, w, user, space in online[user], {}, outbox[user], outbox[user]) {
      }
      assert ids - ids == {};
      while todo != {}
        invariant Ready() && todo <= ids
        invariant forall user :: user in online ==>
                    Noticed(policy, w, user, space in online[user], ids - todo, old(outbox)[user], outbox[user])
        decreases todo
      {
        var id :| id in todo;
        ghost var before := outbox;
        BroadcastOverrideChange(space, id);
        assert ids - todo + {id} == ids - (todo - {id});
        forall user | user in online
          ensures Noticed(policy, w, user, space in online[user], ids - (todo - {id}), old(outbox)[user], outbox[user])
        {
          OneMoreNotice(policy, w, user, space in online[user], ids - todo, id, old(outbox)[user], before[user], outbox[user]);
        }
        todo := todo - {id};
      }
      assert ids - {} == ids;
    }

    method BroadcastCategoryOverrideChange(space: string, category: string)
      requires Ready() && category in categories && categories[category].space == space
      modifies this`outbox
      ensures Ready()
      ensures forall user :: user in online ==>
                CategoryNoticed(policy, Tables(), user, space in online[user], space, category, old(outbox)[user], outbox[user])
    {
      BroadcastEach(space, InCategory(Tables(), space, category));
      ghost var noticed := outbox;
      SendToSpace(space, CategoryUpdated(category, categories[category]));
      forall user | user in online
        ensures CategoryNoticed(policy, Tables(), user, space in online[user], space, category, old(outbox)[user], outbox[user])
      {
        NoticesThenCategory(policy, Tables(), user, space in online[user], space, category, old(outbox)[user], noticed[user], outbox[user]);
      }
    }

    /** The visible list for one user, collected channel by channel. */
    method CollectLayout(user: string, space: string) returns (e: ClientEvent)
      ensures e == LayoutFor(policy, Tables(), user, space)
    {
      var w := Tables();
      var visible: map<string, Channel>, perms: map<string, nat> := map[], map[];
      var rest := channels.Keys;
      while rest != {}
        invariant rest <= channels.Keys
        invariant visible.Keys == perms.Keys
               == set id | id in channels && id !in rest && channels[id].space == space && Sees(policy, w, user, id)
        invariant forall id :: id in visible ==> visible[id] == channels[id] && perms[id] == Perms(policy, w, user, id)
        decreases rest
      {
        var id :| id in rest;
        if channels[id].space == space && policy.views(Perms(policy, w, user, id)) {
          visible, perms := visible[id := channels[id]], perms[id := Perms(policy, w, user, id)];
        }
        rest := rest - {id};
      }
      var listed := CollectCategories(space);
      return LayoutUpdated(space, visible, perms, listed);
    }

    method CollectCategories(space: string) returns (listed: map<string, Category>)
      ensures listed == CategoriesOf(Tables(), space)
    {
      listed := map[];
      var rest := categories.Keys;
      while rest != {}
        invariant rest <= categories.Keys
        invariant listed.Keys == set id | id in categories && id !in rest && categories[id].space == space
        invariant forall id :: id in listed ==> listed[id] == categories[id]
        decreases rest
      {
        var id :| id in rest;
        if categories[id].space == space {
          listed := listed[id := categories[id]];
        }
        rest := rest - {id};
      }
    }

    method BroadcastChannelLayout(space: string)
      requires Ready()
      modifies this`outbox
      ensures Ready()
      ensures forall user :: user in online ==>
                outbox[user] == old(outbox)[user] + if space in online[user] then [LayoutFor(policy, Tables(), user, space)] else []
    {
      var w := Tables();
      var todo := online.Keys;
      while todo != {}
        invariant Ready() && todo <= online.Keys
        invariant forall user :: user in online ==>
                    outbox[user] == old(outbox)[user]
                      + if user !in todo && space in online[user] then [LayoutFor(policy, w, user, space)] else []
        decreases todo
      {
        var user :| user in todo;
        if space in online[user] {
          var layout := CollectLayout(user, space);
          SendToUser(user, layout);
        }
        todo := todo - {user};
      }
    }

    /** One past the highest position in the space, from -1 when it has no channel. */
    method NextPosition(space: string) returns (position: int)
      ensures forall id :: id in channels && channels[id].space == space ==> channels[id].position < position
      ensures position == 0 || exists id :: id in channels && channels[id].space == space && channels[id].position == position - 1
    {
      position := 0;
      var todo := channels.Keys;
      while todo != {}
        invariant todo <= channels.Keys
        invariant forall id :: id in channels && id !in todo && channels[id].space == space ==> channels[id].position < position
        invariant position == 0 || exists id :: id in channels && channels[id].space == space && channels[id].position == position - 1
        decreases todo
      {
        var id :| id in todo;
        if channels[id].space == space && channels[id].position >= position {
          position := channels[id].position + 1;
        }
        todo := todo - {id};
      }
    }

    method CreateChannel(authorized: bool, id: string, space: string, name: string, topic: string, category: Option<string>)
      returns (created: Option<Channel>)
      requires Ready() && id !in channels  // a fresh snowflake
      modifies this
      ensures Ready() && online == old(online)
      ensures created.Some? <==>
                && authorized && 1 <= |name| <= 100
                && (category.Some? ==> category.value in old(categories) && old(categories)[category.value].space == space)
      ensures created.None? ==> Tables() == old(Tables()) && outbox == old(outbox)
      ensures created.Some? ==>
                && created == Some(Channel(space, name, topic, created.value.position, category))
                && (forall other :: other in old(channels) && old(channels)[other].space == space ==>
                                      old(channels)[other].position < created.value.position)
                && (created.value.position == 0 || exists other :: other in old(channels) && old(channels)[other].space == space
                                                                  && old(channels)[other].position == created.value.position - 1)
                && channels == old(channels)[id := created.value]
                && var m := Mutation.CreateChannel(id, created.value);
                   Tables() == After(old(Tables()), m)
                   && Broadcast(policy, old(Tables()), m, online, old(outbox), outbox)
    {
      if !authorized || !NameFits(name)
         || (category.Some? && (category.value !in categories || categories[category.value].space != space)) {
        return None;
      }
      var position := NextPosition(space);
      var row := Channel(space, name, topic, position, category);
      channels := channels[id := row];
      BroadcastCreation(space, id);
      return Some(row);
    }

    method BroadcastCreation(space: string, id: string)
      requires Ready() && id in channels
      modifies this`outbox
      ensures Ready()
      ensures forall user :: user in online ==>
                outbox[user] == old(outbox)[user]
                  + if space in online[user] && Sees(policy, Tables(), user, id) then [Notice(policy, Tables(), user, id)] else []
    {
      var w := Tables();
      var todo := online.Keys;
      while todo != {}
        invariant Ready() && todo <= online.Keys
        invariant forall user :: user in online ==>
                    outbox[user] == old(outbox)[user]
                      + if user !in todo && space in online[user] && Sees(policy, w, user, id)
                        then [Notice(policy, w, user, id)] else []
        decreases todo
      {
        var user :| user in todo;
        if space in online[user] {
          var perms := Perms(policy, w, user, id);
          if policy.views(perms) {
            SendToUser(user, ChannelUpserted(id, channels[id], Some(perms)));
          }
        }
        todo := todo - {user};
      }
    }

    method PatchChannel(authorized: bool, id: string, name: Option<string>, topic: Option<string>, position: Option<int>, category: Option<Option<string>>)
      returns (ok: bool)
      requires Ready()
      modifies this
      ensures Ready() && online == old(online)
      ensures ok <==> authorized && PatchFits(old(Tables()), id, name, topic, position, category)
      ensures !ok ==> Tables() == old(Tables()) && outbox == old(outbox)
      ensures ok ==> var m := PatchOf(old(Tables()), id, name, topic, position, category);
                     && Tables() == After(old(Tables()), m)
                     && Broadcast(policy, old(Tables()), m, online, old(outbox), outbox)
    {
      if !authorized || !PatchFits(Tables(), id, name, topic, position, category) {
        return false;
      }
      var row := Patched(channels[id], name, topic, position, category);
      channels := channels[id := row];
      if category.Some? {
        BroadcastOverrideChange(row.space, id);
      } else {
        SendToChannel(row.space, id, ChannelUpserted(id, row, None));
      }
      return true;
    }

    /** Only to the connected members who can view the channel. */
    method SendToChannel(space: string, id: string, e: ClientEvent)
      requires Ready() && id in channels
      modifies this`outbox
      ensures Ready()
      ensures forall user :: user in online ==>
                outbox[user] == old(outbox)[user]
                  + if space in online[user] && Sees(policy, Tables(), user, id) then [e] else []
    {
      var w := Tables();
      var todo := online.Keys;
      while todo != {}
        invariant Ready() && todo <= online.Keys
        invariant forall user :: user in online ==>
                    outbox[user] == old(outbox)[user]
                      + if user !in todo && space in online[user] && Sees(policy, w, user, id) then [e] else []
        decreases todo
      {
        var user :| user in todo;
        if space in online[user] && policy.views(Perms(policy, w, user, id)) {
          SendToUser(user, e);
        }
        todo := todo - {user};
      }
    }

    method SendToEach(users: set<string>, e: ClientEvent)
      requires Ready() && users <= online.Keys
      modifies this`outbox
      ensures Ready()
      ensures forall user :: user in online ==> outbox[user] == old(outbox)[user] + if user in users then [e] else []
    {
      var todo := users;
      while todo != {}
        invariant Ready() && todo <= users
        invariant forall user :: user in online ==>
                    outbox[user] == old(outbox)[user] + if user in users - todo then [e] else []
        decreases todo
      {
        var user :| user in todo;
        SendToUser(user, e);
        todo := todo - {user};
      }
    }

    method DeleteChannel(authorized: bool, id: string) returns (ok: bool)
      requires Ready()
      modifies this
      ensures Ready() && online == old(online)
      ensures ok <==> authorized && id in old(channels)
      ensures !ok ==> Tables() == old(Tables()) && outbox == old(outbox)
      ensures ok ==> var m := Mutation.DeleteChannel(id);
                     && Tables() == After(old(Tables()), m)
                     && Broadcast(policy, old(Tables()), m, online, old(outbox), outbox)
    {
      if !authorized || id !in channels {
        return false;
      }
      var w, space := Tables(), channels[id].space;
      // The viewers are collected before the row and its overrides go.
      var viewers := set user | user in online && space in online[user] && Sees(policy, w, user, id);
      channels, channelOverrides := channels - {id}, channelOverrides - {id};
      SendToEach(viewers, ChannelDeleted(id, space));
      return true;
    }

    /** PUT sets the override, DELETE passes None. */
    method SetChannelOverride(authorized: bool, id: string, target: Target, bits: Option<Bits>) returns (ok: bool)
      requires Ready()
      modifies this
      ensures Ready() && online == old(online)
      ensures ok <==> authorized && id in old(channels)
      ensures !ok ==> Tables() == old(Tables()) && outbox == old(outbox)
      ensures ok ==> Stored(old(channelOverrides), channelOverrides, id, target, bits)
                     && channels == old(channels) && categories == old(categories) && categoryOverrides == old(categoryOverrides)
      ensures ok ==> var m := Mutation.SetChannelOverride(id, target, bits);
                     && Tables() == After(old(Tables()), m)
                     && Broadcast(policy, old(Tables()), m, online, old(outbox), outbox)
    {
      if !authorized || id !in channels {
        return false;
      }
      var overrides := OverridesOf(channelOverrides, id) - {target};
      if bits.Some? {
        overrides := overrides[target := bits.value];
      }
      assert overrides == SetBits(OverridesOf(channelOverrides, id), target, bits);
      channelOverrides := channelOverrides[id := overrides];
      BroadcastOverrideChange(channels[id].space, id);
      return true;
    }

    method SetCategoryOverride(authorized: bool, category: string, target: Target, bits: Option<Bits>) returns (ok: bool)
      requires Ready()
      modifies this
      ensures Ready() && online == old(online)
      ensures ok <==> authorized && category in old(categories)
      ensures !ok ==> Tables() == old(Tables()) && outbox == old(outbox)
      ensures ok ==> Stored(old(categoryOverrides), categoryOverrides, category, target, bits)
                     && channels == old(channels) && categories == old(categories) && channelOverrides == old(channelOverrides)
      ensures ok ==> var m := Mutation.SetCategoryOverride(category, target, bits);
                     && Tables() == After(old(Tables()), m)
                     && Broadcast(policy, old(Tables()), m, online, old(outbox), outbox)
    {
      if !authorized || category !in categories {
        return false;
      }
      var overrides := OverridesOf(categoryOverrides, category) - {target};
      if bits.Some? {
        overrides := overrides[target := bits.value];
      }
      assert overrides == SetBits(OverridesOf(categoryOverrides, category), target, bits);
      categoryOverrides := categoryOverrides[category := overrides];
      ghost var w, m := old(Tables()), Mutation.SetCategoryOverride(category, target, bits);
      assert Tables() == After(w, m);
      BroadcastCategoryOverrideChange(categories[category].space, category);
      assert Broadcast(policy, w, m, online, old(outbox), outbox) by {
        hide Sent, CategoryNoticed;
        forall user | user in online
          ensures var was, now := old(outbox)[user], outbox[user];
                  was <= now && if SpaceOf(w, m) in online[user] then Sent(policy, w, m, user, now[|was|..]) else now == was
        {
          CategoryNoticedIsSent(policy, w, m, user, SpaceOf(w, m) in online[user], old(outbox)[user], outbox[user]);
        }
      }
      return true;
    }

    /** One past the highest category position of the space, from -1 when it has no category. */
    method NextCategoryPosition(space: string) returns (position: int)
      ensures forall id :: id in categories && categories[id].space == space ==> categories[id].position < position
      ensures position == 0 || exists id :: id in categories && categories[id].space == space && categories[id].position == position - 1
    {
      position := 0;
      var todo := categories.Keys;
      while todo != {}
        invariant todo <= categories.Keys
        invariant forall id :: id in categories && id !in todo && categories[id].space == space ==> categories[id].position < position
        invariant position == 0 || exists id :: id in categories && categories[id].space == space && categories[id].position == position - 1
        decreases todo
      {
        var id :| id in todo;
        if categories[id].space == space && categories[id].position >= position {
          position := categories[id].position + 1;
        }
        todo := todo - {id};
      }
    }

    /** The new category comes after every category of its space. */
    method CreateCategory(spaceExists: bool, authorized: bool, id: string, space: string, name: string) returns (status: nat)
      requires Ready() && id !in categories  // a generated id
      modifies this
      ensures Ready() && online == old(online)
      ensures status == if !spaceExists then 404 else if !authorized then 403 else if !NameFits(name) then 400 else 201
      ensures status != 201 ==> Tables() == old(Tables()) && outbox == old(outbox)
      ensures status == 201 ==>
                && id in categories && categories[id].space == space && categories[id].name == name
                && (forall other :: other in old(categories) && old(categories)[other].space == space ==>
                                      old(categories)[other].position < categories[id].position)
                && (categories[id].position == 0 || exists other :: other in old(categories) && old(categories)[other].space == space
                                                                    && old(categories)[other].position == categories[id].position - 1)
                && var m := Mutation.SetCategory(id, categories[id]);
                   Valid(old(Tables()), m) && Tables() == After(old(Tables()), m)
                   && Broadcast(policy, old(Tables()), m, online, old(outbox), outbox)
    {
      if !spaceExists {
        return 404;
      }
      if !authorized {
        return 403;
      }
      if !NameFits(name) {
        return 400;
      }
      var position := NextCategoryPosition(space);
      categories := categories[id := Category(space, name, position)];
      SendToSpace(space, CategoryCreated(id, categories[id]));
      return 201;
    }

    /** Renames or moves a category within its space; what the body leaves out stays. */
    method PatchCategory(authorized: bool, id: string, name: Option<string>, position: Option<int>) returns (status: nat)
      requires Ready()
      modifies this
      ensures Ready() && online == old(online)
      ensures status == if id !in old(categories) then 404 else if !authorized then 403
                        else if (name.Some? && !NameFits(name.value)) || (position.Some? && position.value < 0) || (name.None? && position.None?) then 400
                        else 200
      ensures status != 200 ==> Tables() == old(Tables()) && outbox == old(outbox)
      ensures status == 200 ==>
                && id in categories && categories[id].space == old(categories)[id].space
                && categories[id].name == (if name.Some? then name.value else old(categories)[id].name)
                && categories[id].position == (if position.Some? then position.value else old(categories)[id].position)
                && var m := Mutation.SetCategory(id, categories[id]);
                   Valid(old(Tables()), m) && Tables() == After(old(Tables()), m)
                   && Broadcast(policy, old(Tables()), m, online, old(outbox), outbox)
    {
      if id !in categories {
        return 404;
      }
      if !authorized {
        return 403;
      }
      var row := categories[id];
      if name.Some? {
        if !NameFits(name.value) {
          return 400;
        }
        row := row.(name := name.value);
      }
      if position.Some? {
        if position.value < 0 {
          return 400;
        }
        row := row.(position := position.value);
      }
      if name.None? && position.None? {
        return 400;
      }
      categories := categories[id := row];
      SendToSpace(row.space, CategoryUpdated(id, row));
      return 200;
    }

    method DeleteCategory(authorized: bool, category: string) returns (ok: bool)
      requires Ready()
      modifies this
      ensures Ready() && online == old(online)
      ensures ok <==> authorized && category in old(categories)
      ensures !ok ==> Tables() == old(Tables()) && outbox == old(outbox)
      ensures ok ==> var m := Mutation.DeleteCategory(category);
                     && Tables() == After(old(Tables()), m)
                     && Broadcast(policy, old(Tables()), m, online, old(outbox), outbox)
    {
      if !authorized || category !in categories {
        return false;
      }
      var space := categories[category].space;
      channels := WithoutCategory(channels, category);
      categories, categoryOverrides := categories - {category}, categoryOverrides - {category};
      SendToSpace(space, CategoryDeleted(category, space));
      BroadcastChannelLayout(space);
      return true;
    }

    method PatchLayout(authorized: bool, space: string, moves: seq<Move>, shifts: seq<Shift>) returns (ok: bool)
      requires Ready()
      modifies this
      ensures Ready() && online == old(online)
      ensures ok <==> authorized && Valid(old(Tables()), Layout(space, moves, shifts))
      ensures !ok ==> Tables() == old(Tables()) && outbox == old(outbox)
      ensures ok ==> var m := Layout(space, moves, shifts);
                     && Tables() == After(old(Tables()), m)
                     && Broadcast(policy, old(Tables()), m, online, old(outbox), outbox)
    {
      if !authorized || !Valid(Tables(), Layout(space, moves, shifts)) {
        return false;
      }
      var w := Tables();
      MovedFacts(w, space, moves, shifts);
      for i := 0 to |moves|
        invariant channels == Moved(w.channels, moves[..i])
        invariant categories == w.categories && online == old(online) && outbox == old(outbox)
        invariant channelOverrides == w.channelOverrides && categoryOverrides == w.categoryOverrides
      {
        var move := moves[i];
        assert moves[..i + 1][..i] == moves[..i];
        if move.id in channels {
          channels := channels[move.id := channels[move.id].(position := move.position, category := move.category)];
        }
      }
      assert moves[..|moves|] == moves;
      for i := 0 to |shifts|
        invariant categories == Shifted(w.categories, shifts[..i])
        invariant channels == Moved(w.channels, moves) && online == old(online) && outbox == old(outbox)
        invariant channelOverrides == w.channelOverrides && categoryOverrides == w.categoryOverrides
      {
        var shift := shifts[i];
        assert shifts[..i + 1][..i] == shifts[..i];
        if shift.id in categories {
          categories := categories[shift.id := categories[shift.id].(position := shift.position)];
        }
      }
      assert shifts[..|shifts|] == shifts;
      BroadcastChannelLayout(space);
      return true;
    }
  }
}
