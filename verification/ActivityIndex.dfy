/**
 Game detection in the desktop shell
 (packages/desktop/src/activityDetector.ts, lines 57-169, 199-243 and 444-500).
 A dictionary is loaded into a list and into an index by process name; each poll
 scans the list for the first game with a running process.

 `fold` is toLowerCase. A poll receives the folded names of the running
 processes.
 */
module ActivityIndex {
  import opened Totals

  datatype Entry = Entry(id: string, name: string, processes: seq<string>, kind: string)

  /** A field of a JSON object: absent, a string, or something else. */
  datatype Field = Missing | Text(text: string) | Other

  datatype RawEntry = NotAnObject | RawEntry(id: Field, name: Field, processes: Option<seq<Field>>, kind: Field)

  datatype Parsed = Bare(entries: seq<RawEntry>) | Versioned(version: Option<int>, games: Option<seq<RawEntry>>) | Neither

  type Index = map<string, Entry>

  type Fold = string -> string

  function ParseGameEntry(raw: RawEntry): Option<Entry> {
    if raw.NotAnObject? || !raw.id.Text? || raw.id.text == "" || !raw.name.Text? || raw.name.text == ""
       || raw.processes.None? || raw.processes.value == [] || (exists p :: p in raw.processes.value && !p.Text?)
    then None
    else
      var kind := if raw.kind.Text? && raw.kind.text in {"playing", "listening", "watching", "streaming"} then raw.kind.text else "playing";
      Some(Entry(raw.id.text, raw.name.text, Texts(raw.processes.value), kind))
  }

  function Texts(fields: seq<Field>): seq<string>
    requires forall p :: p in fields ==> p.Text?
  {
    seq(|fields|, i requires 0 <= i < |fields| => assert fields[i] in fields; fields[i].text)
  }

  /** An entry is kept exactly if it has an id, a name and at least one process, and nothing but text among the processes. */
  lemma EntryParsesIff(raw: RawEntry)
    ensures ParseGameEntry(raw).Some? <==>
              && raw.RawEntry? && raw.id.Text? && raw.id.text != "" && raw.name.Text? && raw.name.text != ""
              && raw.processes.Some? && |raw.processes.value| > 0
              && forall i :: 0 <= i < |raw.processes.value| ==> raw.processes.value[i].Text?
  {
    if raw.RawEntry? && raw.processes.Some? {
      assert forall i :: 0 <= i < |raw.processes.value| ==> raw.processes.value[i] in raw.processes.value;
    }
  }

  /** It keeps its own id, name and processes, and its kind if that is a known one, else `playing`. */
  lemma EntryHolds(raw: RawEntry)
    requires ParseGameEntry(raw).Some?
    ensures var entry := ParseGameEntry(raw).value;
            && raw.id == Text(entry.id) && raw.name == Text(entry.name)
            && |entry.processes| == |raw.processes.value|
            && (forall i :: 0 <= i < |entry.processes| ==> raw.processes.value[i] == Text(entry.processes[i]))
            && (raw.kind in {Text("playing"), Text("listening"), Text("watching"), Text("streaming")} ==> raw.kind == Text(entry.kind))
            && (raw.kind !in {Text("playing"), Text("listening"), Text("watching"), Text("streaming")} ==> entry.kind == "playing")
  {
    assert forall i :: 0 <= i < |raw.processes.value| ==> raw.processes.value[i] in raw.processes.value;
  }

  // ---------------------------------------------------------------------
  // The list and the index
  // ---------------------------------------------------------------------

  /** The valid entries, in dictionary order. */
  function ValidEntries(raws: seq<RawEntry>): seq<Entry> {
    if raws == [] then []
    else
      var before, entry := ValidEntries(raws[..|raws| - 1]), ParseGameEntry(raws[|raws| - 1]);
      if entry.Some? then before + [entry.value] else before
  }

  predicate Lists(fold: Fold, entry: Entry, key: string) {
    exists i :: 0 <= i < |entry.processes| && fold(entry.processes[i]) == key
  }

  /** The lowest index of an entry that lists the process. */
  function FirstListing(fold: Fold, entries: seq<Entry>, key: string): (first: Option<nat>)
    ensures first.None? ==> forall i :: 0 <= i < |entries| ==> !Lists(fold, entries[i], key)
    ensures first.Some? ==> first.value < |entries| && Lists(fold, entries[first.value], key)
                            && forall i :: 0 <= i < first.value ==> !Lists(fold, entries[i], key)
  {
    if entries == [] then None
    else
      var n := |entries| - 1;
      var before := FirstListing(fold, entries[..n], key);
      if before.Some? then before else if Lists(fold, entries[n], key) then Some(n) else None
  }

  /** Each listed process name is indexed to the first entry that lists it, and nothing else is. */
  ghost predicate Indexes(fold: Fold, entries: seq<Entry>, index: Index) {
    forall key ::
      var first := FirstListing(fold, entries, key);
      (key in index <==> first.Some?) && (key in index ==> index[key] == entries[first.value])
  }

  /** Two indexes of one list are the same. */
  lemma IndexIsUnique(fold: Fold, entries: seq<Entry>, a: Index, b: Index)
    requires Indexes(fold, entries, a) && Indexes(fold, entries, b)
    ensures a == b
  {
  }

  /** The index while an entry's first `n` process names have been added. */
  ghost predicate IndexesUpTo(fold: Fold, entries: seq<Entry>, entry: Entry, n: nat, index: Index)
    requires n <= |entry.processes|
  {
    forall key ::
      var first := FirstListing(fold, entries, key);
      var now := exists i :: 0 <= i < n && fold(entry.processes[i]) == key;
      && (key in index <==> first.Some? || now)
      && (key in index ==> index[key] == if first.Some? then entries[first.value] else entry)
  }

  lemma EntryDone(fold: Fold, entries: seq<Entry>, entry: Entry, index: Index)
    requires IndexesUpTo(fold, entries, entry, |entry.processes|, index)
    ensures Indexes(fold, entries + [entry], index)
  {
  }

  /** The loop both loadDictionary and validateDictionary run for one entry. */
  method AddProcesses(fold: Fold, ghost entries: seq<Entry>, entry: Entry, index: Index) returns (after: Index)
    requires Indexes(fold, entries, index)
    ensures Indexes(fold, entries + [entry], after)
  {
    after := index;
    for i := 0 to |entry.processes|
      invariant IndexesUpTo(fold, entries, entry, i, after)
    {
      var key := fold(entry.processes[i]);
      ghost var was := after;
      if key !in after {
        after := after[key := entry];
      }
      OneMoreProcess(fold, entries, entry, i, was, after);
    }
    EntryDone(fold, entries, entry, after);
  }

  lemma OneMoreProcess(fold: Fold, entries: seq<Entry>, entry: Entry, i: nat, was: Index, now: Index)
    requires i < |entry.processes| && IndexesUpTo(fold, entries, entry, i, was)
    requires var key := fold(entry.processes[i]); now == if key in was then was else was[key := entry]
    ensures IndexesUpTo(fold, entries, entry, i + 1, now)
  {
  }

  method BuildIndex(fold: Fold, raws: seq<RawEntry>) returns (entries: seq<Entry>, index: Index)
    ensures entries == ValidEntries(raws) && Indexes(fold, entries, index)
  {
    entries, index := [], map[];
    for i := 0 to |raws|
      invariant entries == ValidEntries(raws[..i]) && Indexes(fold, entries, index)
    {
      assert raws[..i + 1][..i] == raws[..i];
      var entry := ParseGameEntry(raws[i]);
      if entry.Some? {
        index := AddProcesses(fold, entries, entry.value, index);
        entries := entries + [entry.value];
      }
    }
    assert raws[..|raws|] == raws;
  }

  /** The raw entries of a dictionary with a known structure. */
  function Games(parsed: Parsed): Option<seq<RawEntry>> {
    match parsed
    case Bare(entries) => Some(entries)
    case Versioned(version, games) => if version.Some? then games else None
    case Neither => None
  }

  /** The dictionary is taken: known structure and at least one process name. */
  predicate Accepted(parsed: Parsed) {
    Games(parsed).Some? && ValidEntries(Games(parsed).value) != []
  }

  /** `at` picks the entries of `entries` out of `raws`, in order, and leaves none out that parses. */
  ghost predicate KeepsValid(at: seq<nat>, entries: seq<Entry>, raws: seq<RawEntry>) {
    && |at| == |entries|
    && (forall k :: 0 <= k < |at| ==> at[k] < |raws| && ParseGameEntry(raws[at[k]]) == Some(entries[k]))
    && (forall j, k :: 0 <= j < k < |at| ==> at[j] < at[k])
    && (forall i :: 0 <= i < |raws| ==> (i in at <==> ParseGameEntry(raws[i]).Some?))
  }

  lemma {:induction false} ValidEntriesAreTheValid(raws: seq<RawEntry>) returns (at: seq<nat>)
    ensures KeepsValid(at, ValidEntries(raws), raws)
  {
    hide ParseGameEntry;
    at := [];
    if raws != [] {
      var n := |raws| - 1;
      at := ValidEntriesAreTheValid(raws[..n]);
      if ParseGameEntry(raws[n]).Some? {
        at := at + [n];
      }
    }
  }

  /** A dictionary is taken exactly if it is a list, or has a version and a list of games, and some entry of it parses. */
  lemma AcceptedIff(parsed: Parsed)
    ensures Accepted(parsed) <==>
              || (parsed.Bare? && exists i :: 0 <= i < |parsed.entries| && ParseGameEntry(parsed.entries[i]).Some?)
              || (parsed.Versioned? && parsed.version.Some? && parsed.games.Some?
                  && exists i :: 0 <= i < |parsed.games.value| && ParseGameEntry(parsed.games.value[i]).Some?)
  {
    if Games(parsed).Some? {
      var at := ValidEntriesAreTheValid(Games(parsed).value);
      if at != [] {
        assert at[0] in at;
      }
    }
  }

  lemma {:induction false} ValidEntriesListSomething(raws: seq<RawEntry>)
    ensures forall entry :: entry in ValidEntries(raws) ==> entry.processes != []
  {
    if raws != [] {
      ValidEntriesListSomething(raws[..|raws| - 1]);
    }
  }

  lemma EmptyIndexIff(fold: Fold, raws: seq<RawEntry>, index: Index)
    requires Indexes(fold, ValidEntries(raws), index)
    ensures index == map[] <==> ValidEntries(raws) == []
  {
    var entries := ValidEntries(raws);
    ValidEntriesListSomething(raws);
    if entries != [] {
      assert entries[0] in entries;
      var key := fold(entries[0].processes[0]);
      assert Lists(fold, entries[0], key);
      assert key in index;
    }
  }

  // ---------------------------------------------------------------------
  // The scan
  // ---------------------------------------------------------------------

  predicate Runs(fold: Fold, entry: Entry, running: set<string>) {
    exists i :: 0 <= i < |entry.processes| && fold(entry.processes[i]) in running
  }

  /** The first entry with a running process. */
  function FirstRunning(fold: Fold, entries: seq<Entry>, running: set<string>): (first: Option<nat>)
    ensures first.None? ==> forall i :: 0 <= i < |entries| ==> !Runs(fold, entries[i], running)
    ensures first.Some? ==> first.value < |entries| && Runs(fold, entries[first.value], running)
                            && forall i :: 0 <= i < first.value ==> !Runs(fold, entries[i], running)
  {
    if entries == [] then None
    else
      var n := |entries| - 1;
      var before := FirstRunning(fold, entries[..n], running);
      if before.Some? then before else if Runs(fold, entries[n], running) then Some(n) else None
  }

  /**
   The scan agrees with the index: it finds nothing exactly when no indexed name
   is running, and otherwise the lowest-numbered of the entries the index gives
   for the running names.
   */
  lemma ScanAgreesWithIndex(fold: Fold, entries: seq<Entry>, index: Index, running: set<string>)
    requires Indexes(fold, entries, index)
    ensures FirstRunning(fold, entries, running).None? <==> index.Keys * running == {}
    ensures FirstRunning(fold, entries, running).Some? ==>
              var best := FirstRunning(fold, entries, running).value;
              && (exists key :: key in index.Keys * running && FirstListing(fold, entries, key) == Some(best) && index[key] == entries[best])
              && (forall key :: key in index.Keys * running ==> FirstListing(fold, entries, key).value >= best)
  {
    var found := FirstRunning(fold, entries, running);
    forall key | key in index.Keys * running
      ensures FirstListing(fold, entries, key).Some? && Runs(fold, entries[FirstListing(fold, entries, key).value], running)
      ensures found.Some? && FirstListing(fold, entries, key).value >= found.value
    {
      RunningIsListed(fold, entries, key, running);
    }
    if found.Some? {
      var i :| 0 <= i < |entries[found.value].processes| && fold(entries[found.value].processes[i]) in running;
      var key := fold(entries[found.value].processes[i]);
      assert Lists(fold, entries[found.value], key);
      var first := FirstListing(fold, entries, key).value;
      if first < found.value {
        RunningIsListed(fold, entries, key, running);
      }
      assert key in index.Keys * running;
    }
  }

  lemma RunningIsListed(fold: Fold, entries: seq<Entry>, key: string, running: set<string>)
    requires FirstListing(fold, entries, key).Some? && key in running
    ensures Runs(fold, entries[FirstListing(fold, entries, key).value], running)
  {
  }

  // ---------------------------------------------------------------------
  // The detector
  // ---------------------------------------------------------------------

  datatype Activity = Activity(kind: string, name: string, start: int)

  datatype State = State(entries: seq<Entry>, gameId: Option<string>, activity: Option<Activity>)

  datatype Event =
    | Dictionary(parsed: Parsed)                // loaded from a file, or validated and hot-swapped
    | Poll(now: int, running: set<string>)

  function Matched(fold: Fold, entries: seq<Entry>, running: set<string>): Option<Entry> {
    var first := FirstRunning(fold, entries, running);
    if first.Some? then Some(entries[first.value]) else None
  }

  function Next(fold: Fold, s: State, e: Event): State {
    match e
    case Dictionary(parsed) => if Accepted(parsed) then s.(entries := ValidEntries(Games(parsed).value)) else s
    case Poll(now, running) =>
      var entry := Matched(fold, s.entries, running);
      if entry.None? then s.(gameId := None, activity := None)
      else if s.gameId == Some(entry.value.id) then s
      else s.(gameId := Some(entry.value.id), activity := Some(Activity(entry.value.kind, entry.value.name, now)))
  }

  class ActivityDetector {
    const fold: Fold
    var gameEntries: seq<Entry>
    var processMap: Index
    var currentGameId: Option<string>
    var currentActivity: Option<Activity>
    ghost var notified: seq<Option<Activity>>

    ghost predicate Valid()
      reads this
    {
      Indexes(fold, gameEntries, processMap) && (currentGameId.None? <==> currentActivity.None?)
    }

    function Now(): State
      reads this
    {
      State(gameEntries, currentGameId, currentActivity)
    }

    constructor (fold: Fold)
      ensures Valid() && this.fold == fold && Now() == State([], None, None) && notified == []
    {
      this.fold := fold;
      gameEntries, processMap, currentGameId, currentActivity := [], map[], None, None;
      notified := [];
    }

    /** Commits only a dictionary with at least one process name. */
    method LoadDictionary(parsed: Parsed) returns (success: bool)
      requires Valid()
      modifies this`gameEntries, this`processMap
      ensures Valid() && Now() == Next(fold, old(Now()), Dictionary(parsed))
      ensures success <==> Accepted(parsed)
      ensures !success ==> processMap == old(processMap)
    {
      if Games(parsed).None? {
        return false;
      }
      var entries, index := BuildIndex(fold, Games(parsed).value);
      EmptyIndexIff(fold, Games(parsed).value, index);
      if index == map[] {
        return false;
      }
      gameEntries, processMap := entries, index;
      return true;
    }

    /** The same list and index as loadDictionary commits, without committing them. */
    method ValidateDictionary(parsed: Parsed) returns (validated: Option<(seq<Entry>, Index)>)
      ensures validated.Some? <==> Accepted(parsed)
      ensures validated.Some? ==> validated.value.0 == ValidEntries(Games(parsed).value)
                                  && Indexes(fold, validated.value.0, validated.value.1)
    {
      if Games(parsed).None? {
        return None;
      }
      var entries, index := BuildIndex(fold, Games(parsed).value);
      EmptyIndexIff(fold, Games(parsed).value, index);
      return if index == map[] then None else Some((entries, index));
    }

    /** Validating and hot-swapping is loading: same list, same index, detection state kept. */
    method SwapRemote(parsed: Parsed) returns (swapped: bool)
      requires Valid()
      modifies this`gameEntries, this`processMap
      ensures Valid() && Now() == Next(fold, old(Now()), Dictionary(parsed))
      ensures swapped <==> Accepted(parsed)
    {
      var validated := ValidateDictionary(parsed);
      if validated.None? {
        return false;
      }
      gameEntries, processMap := validated.value.0, validated.value.1;
      return true;
    }

    method Poll(now: int, running: set<string>)
      requires Valid()
      modifies this`currentGameId, this`currentActivity, this`notified
      ensures Valid() && Now() == Next(fold, old(Now()), Event.Poll(now, running))
      ensures notified == old(notified) + if currentGameId == old(currentGameId) then [] else [currentActivity]
    {
      var matched: Option<Entry> := None;
      for i := 0 to |gameEntries|
        invariant matched == None && FirstRunning(fold, gameEntries[..i], running).None?
      {
        var entry := gameEntries[i];
        assert gameEntries[..i + 1][..i] == gameEntries[..i];
        if Runs(fold, entry, running) {
          PrefixDecides(fold, gameEntries, running, i);
          matched := Some(entry);
          break;
        }
      }
      assert gameEntries[..|gameEntries|] == gameEntries;
      assert matched == Matched(fold, gameEntries, running);
      if matched.Some? {
        if Some(matched.value.id) != currentGameId {
          currentGameId := Some(matched.value.id);
          currentActivity := Some(Activity(matched.value.kind, matched.value.name, now));
          notified := notified + [currentActivity];
        }
      } else {
        if currentGameId.Some? {
          currentGameId, currentActivity := None, None;
          notified := notified + [None];
        }
      }
    }
  }

  lemma PrefixDecides(fold: Fold, entries: seq<Entry>, running: set<string>, i: nat)
    requires i < |entries| && FirstRunning(fold, entries[..i], running).None? && Runs(fold, entries[i], running)
    ensures FirstRunning(fold, entries, running) == Some(i)
  {
  }

  // ---------------------------------------------------------------------
  // Whole runs
  // ---------------------------------------------------------------------

  function After(fold: Fold, run: seq<Event>): State {
    if run == [] then State([], None, None) else Next(fold, After(fold, run[..|run| - 1]), run[|run| - 1])
  }

  /** What the poll at position `k` matched, in the dictionary of that moment. */
  function MatchedAt(fold: Fold, run: seq<Event>, k: nat): Option<Entry>
    requires k < |run| && run[k].Poll?
  {
    Matched(fold, After(fold, run[..k]).entries, run[k].running)
  }

  /** The poll at `k` found the game, the game before was another one or none, and every later poll found it again. */
  ghost predicate Session(fold: Fold, run: seq<Event>, k: nat, id: string) {
    && k < |run| && run[k].Poll?
    && After(fold, run[..k]).gameId != Some(id)
    && forall j :: k <= j < |run| && run[j].Poll? ==> MatchedAt(fold, run, j).Some? && MatchedAt(fold, run, j).value.id == id
  }

  lemma SessionContinues(fold: Fold, run: seq<Event>, k: nat, id: string)
    requires run != [] && Session(fold, run[..|run| - 1], k, id)
    requires run[|run| - 1].Poll? ==> MatchedAt(fold, run, |run| - 1).Some? && MatchedAt(fold, run, |run| - 1).value.id == id
    ensures Session(fold, run, k, id) && MatchedAt(fold, run, k) == MatchedAt(fold, run[..|run| - 1], k)
  {
    var before := run[..|run| - 1];
    forall j | 0 <= j < |before| ensures run[..j] == before[..j] && run[j] == before[j] {
    }
  }

  /**
   The reported activity dates from the poll that began the current session:
   dictionary swaps in between change neither its start nor its name while the
   game id stays the same.
   */
  lemma {:induction false} StartSurvivesSwaps(fold: Fold, run: seq<Event>)
    ensures After(fold, run).gameId.None? <==> After(fold, run).activity.None?
    ensures After(fold, run).gameId.Some? ==>
              exists k: nat ::
                && Session(fold, run, k, After(fold, run).gameId.value)
                && var entry := MatchedAt(fold, run, k).value;
                   After(fold, run).activity == Some(Activity(entry.kind, entry.name, run[k].now))
  {
    if run != [] {
      var n := |run| - 1;
      var s, t := After(fold, run[..n]), After(fold, run);
      StartSurvivesSwaps(fold, run[..n]);
      if t.gameId.Some? {
        if s.gameId == t.gameId {
          var k: nat :| Session(fold, run[..n], k, s.gameId.value)
                        && var entry := MatchedAt(fold, run[..n], k).value;
                           s.activity == Some(Activity(entry.kind, entry.name, run[..n][k].now));
          SessionContinues(fold, run, k, s.gameId.value);
          assert run[..n][k] == run[k];
        } else {
          assert run[n].Poll?;
          assert Session(fold, run, n, t.gameId.value);
        }
      }
    }
  }

  /** The reported game is the one the last poll matched, whatever dictionaries came after it. */
  lemma {:induction false} LastPollDecides(fold: Fold, run: seq<Event>, j: nat)
    requires j < |run| && run[j].Poll? && forall i :: j < i < |run| ==> !run[i].Poll?
    ensures var entry := MatchedAt(fold, run, j);
            After(fold, run).gameId == if entry.Some? then Some(entry.value.id) else None
  {
    var before := run[..|run| - 1];
    if j < |before| {
      assert before[..j] == run[..j] && before[j] == run[j];
      LastPollDecides(fold, before, j);
    }
  }

  /** The dictionary in use is the last one that was accepted. */
  lemma {:induction false} LastDictionaryCounts(fold: Fold, run: seq<Event>, j: nat)
    requires j < |run| && run[j].Dictionary? && Accepted(run[j].parsed)
    requires forall i :: j < i < |run| && run[i].Dictionary? ==> !Accepted(run[i].parsed)
    ensures After(fold, run).entries == ValidEntries(Games(run[j].parsed).value)
  {
    hide Accepted;
    if j < |run| - 1 {
      LastDictionaryCounts(fold, run[..|run| - 1], j);
    }
  }

  /** Before the first accepted dictionary there is none. */
  lemma {:induction false} NoDictionaryYet(fold: Fold, run: seq<Event>)
    requires forall i :: 0 <= i < |run| && run[i].Dictionary? ==> !Accepted(run[i].parsed)
    ensures After(fold, run) == State([], None, None)
  {
    hide Accepted;
    if run != [] {
      NoDictionaryYet(fold, run[..|run| - 1]);
    }
  }
}
