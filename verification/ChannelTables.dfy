/**
 What the channel, category, override and layout mutations store
 (packages/server/src/routes/channels.ts, lines 172-349, 353-423, 456-706, 710-863
 and 867-950), said of the rows one by one.
 */
module ChannelTables {
  import opened Totals
  import opened ChannelSync
  import opened ChannelRoutes

  // ---------------------------------------------------------------------
  // Overrides
  // ---------------------------------------------------------------------

  /** A set stores exactly the given bits for the target, a removal leaves no row for it; every other override is as before. */
  lemma OverrideIsStored(w: World, m: Mutation)
    requires m.SetChannelOverride? || m.SetCategoryOverride?
    ensures m.SetChannelOverride? ==>
              var t := After(w, m);
              && Stored(w.channelOverrides, t.channelOverrides, m.id, m.target, m.bits)
              && t.channels == w.channels && t.categories == w.categories && t.categoryOverrides == w.categoryOverrides
    ensures m.SetCategoryOverride? ==>
              var t := After(w, m);
              && Stored(w.categoryOverrides, t.categoryOverrides, m.category, m.target, m.bits)
              && t.channels == w.channels && t.categories == w.categories && t.channelOverrides == w.channelOverrides
  {
  }

  /** Two tables with the same overrides everywhere, whether as an empty row set or none. */
  ghost predicate SameOverrides(a: map<string, Overrides>, b: map<string, Overrides>) {
    forall id :: OverridesOf(a, id) == OverridesOf(b, id)
  }

  /** A later set of the same target replaces an earlier one, and removing it restores a table that had none. */
  lemma LaterSetWins(w: World, id: string, target: Target, first: Option<Bits>, second: Option<Bits>)
    ensures SameOverrides(After(After(w, SetChannelOverride(id, target, first)), SetChannelOverride(id, target, second)).channelOverrides,
                          After(w, SetChannelOverride(id, target, second)).channelOverrides)
    ensures target !in OverridesOf(w.channelOverrides, id) ==>
              SameOverrides(After(After(w, SetChannelOverride(id, target, first)), SetChannelOverride(id, target, None)).channelOverrides,
                            w.channelOverrides)
  {
    SetTwice(OverridesOf(w.channelOverrides, id), target, first, second);
    hide SetBits;
  }

  lemma LaterCategorySetWins(w: World, id: string, target: Target, first: Option<Bits>, second: Option<Bits>)
    ensures SameOverrides(After(After(w, SetCategoryOverride(id, target, first)), SetCategoryOverride(id, target, second)).categoryOverrides,
                          After(w, SetCategoryOverride(id, target, second)).categoryOverrides)
    ensures target !in OverridesOf(w.categoryOverrides, id) ==>
              SameOverrides(After(After(w, SetCategoryOverride(id, target, first)), SetCategoryOverride(id, target, None)).categoryOverrides,
                            w.categoryOverrides)
  {
    SetTwice(OverridesOf(w.categoryOverrides, id), target, first, second);
    hide SetBits;
  }

  lemma SetTwice(overrides: Overrides, target: Target, first: Option<Bits>, second: Option<Bits>)
    ensures SetBits(SetBits(overrides, target, first), target, second) == SetBits(overrides, target, second)
    ensures target !in overrides ==> SetBits(SetBits(overrides, target, first), target, None) == overrides
  {
  }

  // ---------------------------------------------------------------------
  // Channels and categories
  // ---------------------------------------------------------------------

  /** A created or edited channel is stored as given; nothing else changes. */
  lemma ChannelIsStored(w: World, m: Mutation)
    requires m.CreateChannel? || m.EditChannel? || m.RecategoriseChannel?
    ensures var t := After(w, m);
            && m.id in t.channels && t.channels[m.id] == m.channel && t.channels - {m.id} == w.channels - {m.id}
            && t.categories == w.categories && t.channelOverrides == w.channelOverrides && t.categoryOverrides == w.categoryOverrides
  {
  }

  /** A deleted channel goes with its overrides and nothing else. */
  lemma ChannelIsGone(w: World, m: Mutation)
    requires m.DeleteChannel?
    ensures var t := After(w, m);
            && m.id !in t.channels && (forall id :: id != m.id ==> (id in t.channels <==> id in w.channels))
            && (forall id :: id in t.channels ==> t.channels[id] == w.channels[id])
            && m.id !in t.channelOverrides && (forall id :: id != m.id ==> OverridesOf(t.channelOverrides, id) == OverridesOf(w.channelOverrides, id))
            && t.categories == w.categories && t.categoryOverrides == w.categoryOverrides
  {
  }

  /** A deleted category goes with its overrides; its channels stay, without a category. */
  lemma CategoryIsGone(w: World, m: Mutation)
    requires m.DeleteCategory?
    ensures var t := After(w, m);
            && t.categories.Keys == w.categories.Keys - {m.category}
            && (forall id :: id in t.categories ==> t.categories[id] == w.categories[id])
            && m.category !in t.categoryOverrides
            && (forall id :: id != m.category ==> OverridesOf(t.categoryOverrides, id) == OverridesOf(w.categoryOverrides, id))
            && t.channelOverrides == w.channelOverrides && t.channels.Keys == w.channels.Keys
            && (forall id :: id in w.channels ==>
                  && t.channels[id].category == (if w.channels[id].category == Some(m.category) then None else w.channels[id].category)
                  && t.channels[id].space == w.channels[id].space && t.channels[id].name == w.channels[id].name
                  && t.channels[id].topic == w.channels[id].topic && t.channels[id].position == w.channels[id].position)
  {
  }

  /** A created or edited category is stored as given; nothing else changes. */
  lemma CategoryIsStored(w: World, m: Mutation)
    requires m.SetCategory?
    ensures var t := After(w, m);
            && m.category in t.categories && t.categories[m.category] == m.row
            && t.categories - {m.category} == w.categories - {m.category}
            && t.channels == w.channels && t.channelOverrides == w.channelOverrides && t.categoryOverrides == w.categoryOverrides
  {
  }

  // ---------------------------------------------------------------------
  // Layouts
  // ---------------------------------------------------------------------

  /** A channel without a move stays as it is. */
  lemma {:induction false} UnmovedStays(channels: map<string, Channel>, moves: seq<Move>, id: string)
    requires id in channels && forall k :: 0 <= k < |moves| ==> moves[k].id != id
    ensures id in Moved(channels, moves) && Moved(channels, moves)[id] == channels[id]
  {
    if moves != [] {
      UnmovedStays(channels, moves[..|moves| - 1], id);
    }
  }

  /** The last move of a channel decides its place and category, and no move changes anything else. */
  lemma {:induction false} LastMoveDecides(channels: map<string, Channel>, moves: seq<Move>, id: string, k: nat)
    requires id in channels && k < |moves| && moves[k].id == id && forall j :: k < j < |moves| ==> moves[j].id != id
    ensures id in Moved(channels, moves)
    ensures Moved(channels, moves)[id]
         == Channel(channels[id].space, channels[id].name, channels[id].topic, moves[k].position, moves[k].category)
  {
    var n := |moves| - 1;
    if k < n {
      LastMoveDecides(channels, moves[..n], id, k);
    } else {
      MovedKeepsRest(channels, moves[..n], id);
    }
  }

  lemma {:induction false} MovedKeepsRest(channels: map<string, Channel>, moves: seq<Move>, id: string)
    requires id in channels
    ensures id in Moved(channels, moves)
    ensures var row := Moved(channels, moves)[id];
            row.space == channels[id].space && row.name == channels[id].name && row.topic == channels[id].topic
  {
    if moves != [] {
      MovedKeepsRest(channels, moves[..|moves| - 1], id);
    }
  }

  /** The same for a category and its place. */
  lemma {:induction false} UnshiftedStays(categories: map<string, Category>, shifts: seq<Shift>, id: string)
    requires id in categories && forall k :: 0 <= k < |shifts| ==> shifts[k].id != id
    ensures id in Shifted(categories, shifts) && Shifted(categories, shifts)[id] == categories[id]
  {
    if shifts != [] {
      UnshiftedStays(categories, shifts[..|shifts| - 1], id);
    }
  }

  lemma {:induction false} LastShiftDecides(categories: map<string, Category>, shifts: seq<Shift>, id: string, k: nat)
    requires id in categories && k < |shifts| && shifts[k].id == id && forall j :: k < j < |shifts| ==> shifts[j].id != id
    ensures id in Shifted(categories, shifts)
    ensures Shifted(categories, shifts)[id] == Category(categories[id].space, categories[id].name, shifts[k].position)
  {
    var n := |shifts| - 1;
    if k < n {
      LastShiftDecides(categories, shifts[..n], id, k);
    } else {
      ShiftedKeepsRest(categories, shifts[..n], id);
    }
  }

  lemma {:induction false} ShiftedKeepsRest(categories: map<string, Category>, shifts: seq<Shift>, id: string)
    requires id in categories
    ensures id in Shifted(categories, shifts)
    ensures Shifted(categories, shifts)[id].space == categories[id].space && Shifted(categories, shifts)[id].name == categories[id].name
  {
    if shifts != [] {
      ShiftedKeepsRest(categories, shifts[..|shifts| - 1], id);
    }
  }

  /** A layout is taken exactly when each move names a channel of the space, a place from 0 and a category of the space or none, and each shift the like. */
  lemma LayoutAcceptedIff(w: World, m: Mutation)
    requires m.Layout?
    ensures Valid(w, m) <==>
            && (forall k :: 0 <= k < |m.moves| ==>
                  && m.moves[k].id in w.channels && w.channels[m.moves[k].id].space == m.space && m.moves[k].position >= 0
                  && (m.moves[k].category.Some? ==>
                        m.moves[k].category.value in w.categories && w.categories[m.moves[k].category.value].space == m.space))
            && (forall k :: 0 <= k < |m.shifts| ==>
                  m.shifts[k].id in w.categories && w.categories[m.shifts[k].id].space == m.space && m.shifts[k].position >= 0)
    ensures var t := After(w, m);
            t.channelOverrides == w.channelOverrides && t.categoryOverrides == w.categoryOverrides
            && t.channels == Moved(w.channels, m.moves) && t.categories == Shifted(w.categories, m.shifts)
  {
    assert forall k :: 0 <= k < |m.moves| ==> m.moves[k] in m.moves;
    assert forall k :: 0 <= k < |m.shifts| ==> m.shifts[k] in m.shifts;
  }

  /** A patch is taken exactly when its name, place and category fit and it says something; it changes what it says and nothing else. */
  lemma PatchAcceptedIff(w: World, id: string, name: Option<string>, topic: Option<string>, position: Option<int>, category: Option<Option<string>>)
    ensures PatchFits(w, id, name, topic, position, category) <==>
            && id in w.channels && (name.Some? || topic.Some? || position.Some? || category.Some?)
            && (name.Some? ==> 1 <= |name.value| <= 100) && (position.Some? ==> position.value >= 0)
            && (category.Some? && category.value.Some? ==>
                  category.value.value in w.categories && w.categories[category.value.value].space == w.channels[id].space)
    ensures id in w.channels ==>
              var m := PatchOf(w, id, name, topic, position, category);
              && m.id == id && (m.RecategoriseChannel? <==> category.Some?) && (m.EditChannel? <==> category.None?)
              && m.channel.space == w.channels[id].space
              && m.channel.name == (if name.Some? then name.value else w.channels[id].name)
              && m.channel.topic == (if topic.Some? then topic.value else w.channels[id].topic)
              && m.channel.position == (if position.Some? then position.value else w.channels[id].position)
              && m.channel.category == (if category.Some? then category.value else w.channels[id].category)
  {
  }
}
