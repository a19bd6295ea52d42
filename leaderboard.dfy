/**
 * The best-time leaderboard of src/hooks/useLeaderboard.ts: reading the stored
 * entries, deciding whether a time is a best time, merging a new time into the
 * stored list, and the per-group view.
 */
module Leaderboard {
  import opened Utils
  import opened JsValues
  import opened MathUtils
  import opened GameModes

  /** The time shown, and compared against, for a group with no stored entry. */
  const DefaultTime: int := 999

  /** `groupIds`: the ids of the preset modes, in their order. */
  function GroupIds(): (ids: seq<string>)
    ensures Distinct(ids)
  {
    ["beginner", "intermediate", "expert"]
  }

  /** The group ids are the ids of the preset modes, in the order the modes are listed. */
  lemma GroupIdsArePresets()
    ensures GroupIds() == Ids(Presets())
  {
    ModeLists();
  }

  /** `isLeaderboardGroupId`: a string among the preset ids. */
  predicate IsLeaderboardGroupId(value: JsValue)
  {
    value.JsString? && value.s in GroupIds()
  }

  /** The leaderboard takes exactly the preset ids, and never the custom one. */
  lemma LeaderboardGroupIds(value: JsValue)
    ensures IsLeaderboardGroupId(value) <==> value in {JsString("beginner"), JsString("intermediate"), JsString("expert")}
    ensures !IsLeaderboardGroupId(JsString("custom"))
  {
  }

  /** A stored leaderboard item: group id, player (null for the default player) and time in seconds. */
  datatype Entry = Entry(group: string, player: Option<string>, time: int)

  predicate ValidEntry(e: Entry)
  {
    e.group in GroupIds() && e.time > 0
  }

  /** `isLeaderboardStorageItem`: `[groupId, player, time]` with a known group, a string or null player and a positive integer time. */
  predicate IsLeaderboardStorageItem(value: JsValue)
  {
    && value.JsArray?
    && |value.items| == 3
    && IsLeaderboardGroupId(value.items[0])
    && (value.items[1].JsString? || value.items[1].JsNull?)
    && IsInteger(value.items[2])
    && value.items[2].num.n > 0
  }

  /** The array an entry is stored as. */
  function EntryValue(e: Entry): JsValue
  {
    JsArray([JsString(e.group), if e.player.Some? then JsString(e.player.value) else JsNull, JsNumber(Int(e.time))])
  }

  /** Reads a valid storage item as an entry; writing the entry back gives the same array. */
  function ToEntry(value: JsValue): (e: Entry)
    requires IsLeaderboardStorageItem(value)
    ensures ValidEntry(e)
  {
    var items := value.items;
    Entry(items[0].s, if items[1].JsNull? then None else Some(items[1].s), items[2].num.n)
  }

  /** A valid entry is stored as a valid item, and reads back as itself. */
  lemma EntryValueRoundTrip(e: Entry)
    ensures IsLeaderboardStorageItem(EntryValue(e)) <==> ValidEntry(e)
    ensures ValidEntry(e) ==> ToEntry(EntryValue(e)) == e
  {
  }

  /** A valid item read as an entry is written back as the same array. */
  lemma ToEntryRoundTrip(value: JsValue)
    requires IsLeaderboardStorageItem(value)
    ensures EntryValue(ToEntry(value)) == value
  {
    var items := value.items;
    assert items == [items[0], items[1], items[2]];
  }

  /** The storage items the check accepts are exactly the arrays valid entries are stored as. */
  lemma StorageItemIsEntryValue(value: JsValue)
    ensures IsLeaderboardStorageItem(value) <==> exists e :: ValidEntry(e) && EntryValue(e) == value
  {
    if IsLeaderboardStorageItem(value) {
      ToEntryRoundTrip(value);
      assert ValidEntry(ToEntry(value)) && EntryValue(ToEntry(value)) == value;
    }
    forall e | ValidEntry(e) && EntryValue(e) == value
      ensures IsLeaderboardStorageItem(value)
    {
      EntryValueRoundTrip(e);
    }
  }

  /** `filter(isLeaderboardStorageItem)`, reading each kept item as an entry. */
  function FilterEntries(items: seq<JsValue>): (r: seq<Entry>)
    ensures |r| <= |items|
    ensures forall e :: e in r ==> ValidEntry(e)
  {
    if items == [] then []
    else (if IsLeaderboardStorageItem(items[0]) then [ToEntry(items[0])] else []) + FilterEntries(items[1..])
  }

  /** The entries read are exactly the valid items among those stored. */
  lemma {:induction false} FilterEntriesMembers(items: seq<JsValue>, e: Entry)
    ensures e in FilterEntries(items) <==> EntryValue(e) in items && ValidEntry(e)
  {
    if items != [] {
      FilterEntriesMembers(items[1..], e);
      EntryValueRoundTrip(e);
      if IsLeaderboardStorageItem(items[0]) {
        ToEntryRoundTrip(items[0]);
      }
      assert items == [items[0]] + items[1..];
    }
  }

  /**
   * `storageLeaderboard`. `stored` is the parsed storage value; `None` stands
   * for a missing value or text that is not JSON, which both give no entries,
   * as does a value that is not an array.
   */
  function StorageLeaderboard(stored: Option<JsValue>): (r: seq<Entry>)
    ensures forall e :: e in r ==> ValidEntry(e)
    ensures stored.None? || !stored.value.JsArray? ==> r == []
  {
    if stored.Some? && stored.value.JsArray? then FilterEntries(stored.value.items) else []
  }

  /** The stored array of a list of entries (what `JSON.stringify` writes). */
  function EntryValues(es: seq<Entry>): (r: seq<JsValue>)
    ensures |r| == |es|
  {
    if es == [] then [] else [EntryValue(es[0])] + EntryValues(es[1..])
  }

  /** Valid entries written to storage read back unchanged, in order. */
  lemma {:induction false} StorageRoundTrip(es: seq<Entry>)
    requires forall e :: e in es ==> ValidEntry(e)
    ensures StorageLeaderboard(Some(JsArray(EntryValues(es)))) == es
  {
    if es != [] {
      StorageRoundTrip(es[1..]);
      EntryValueRoundTrip(es[0]);
      assert es[0] in es;
      assert forall e :: e in es[1..] ==> e in es;
    }
  }

  /** `find` by group id: the first entry of the group, if any. */
  function FindGroup(entries: seq<Entry>, group: string): (r: Option<Entry>)
    ensures r.None? <==> forall e :: e in entries ==> e.group != group
    ensures r.Some? ==> r.value in entries && r.value.group == group
  {
    if entries == [] then None
    else if entries[0].group == group then Some(entries[0])
    else
      assert forall e :: e in entries ==> e == entries[0] || e in entries[1..];
      FindGroup(entries[1..], group)
  }

  /** The entry found is the first of its group: every entry before it belongs to another group. */
  lemma {:induction false} FindGroupFirst(entries: seq<Entry>, group: string, i: int)
    requires 0 <= i < |entries| && entries[i].group == group
    ensures FindGroup(entries, group).Some?
    ensures (forall j :: 0 <= j < i ==> entries[j].group != group) ==> FindGroup(entries, group) == Some(entries[i])
  {
    if 0 < i {
      FindGroupFirst(entries[1..], group, i - 1);
      if entries[0].group != group {
        assert forall j :: 1 <= j < i ==> entries[j] == entries[1..][j - 1];
      }
    }
  }

  /** Looking up a group in two lists joined: the first list wins. */
  lemma {:induction false} FindGroupAppend(a: seq<Entry>, b: seq<Entry>, group: string)
    ensures FindGroup(a + b, group) == if FindGroup(a, group).Some? then FindGroup(a, group) else FindGroup(b, group)
  {
    if a == [] {
      assert a + b == b;
    } else {
      FindGroupAppend(a[1..], b, group);
      assert (a + b)[0] == a[0] && (a + b)[1..] == a[1..] + b;
    }
  }

  /** `item?.[2] ?? defaultTime`: the stored time of the group, 999 without one. */
  function PreviousTime(entries: seq<Entry>, group: string): int
  {
    match FindGroup(entries, group)
    case Some(e) => e.time
    case None => DefaultTime
  }

  /** `isBestLeaderboardTime` as written: any non-negative time is a best time for a group with no entry. */
  function IsBestLeaderboardTimeAsWritten(entries: seq<Entry>, group: string, time: int): (r: bool)
    ensures time < 0 ==> !r
    ensures time >= 0 && (forall e :: e in entries ==> e.group != group) ==> r
    ensures FindGroup(entries, group).Some? ==> (r <==> 0 <= time < FindGroup(entries, group).value.time)
  {
    if time < 0 then false
    else match FindGroup(entries, group)
      case None => true
      case Some(e) => time < e.time
  }

  /** A best time is one the merge stores: not negative, and below the stored time or 999. */
  function IsBestLeaderboardTime(entries: seq<Entry>, group: string, time: int): (r: bool)
    ensures r ==> 0 <= time < DefaultTime || FindGroup(entries, group).Some?
  {
    0 <= time < PreviousTime(entries, group)
  }

  /** The two agree wherever the group has a stored entry; without one only times below 999 are best. */
  lemma BestTimeCorrection(entries: seq<Entry>, group: string, time: int)
    ensures FindGroup(entries, group).Some? ==>
              IsBestLeaderboardTime(entries, group, time) == IsBestLeaderboardTimeAsWritten(entries, group, time)
    ensures FindGroup(entries, group).None? ==>
              (IsBestLeaderboardTime(entries, group, time) <==> 0 <= time < DefaultTime)
  {
  }

  /** `player !== defaultPlayer ? player : null` */
  function StoredPlayer(player: string, defaultPlayer: string): (r: Option<string>)
    ensures r.None? <==> player == defaultPlayer
    ensures r.Some? ==> r.value == player
  {
    if player != defaultPlayer then Some(player) else None
  }

  /** What one step of the merge loop pushes for group `g`: the new entry, the stored one, or nothing. */
  function MergedItem(entries: seq<Entry>, group: string, stored: Option<string>, time: int, g: string): seq<Entry>
  {
    if g == group && time < PreviousTime(entries, g) then [Entry(group, stored, time)]
    else match FindGroup(entries, g)
      case Some(e) => [e]
      case None => []
  }

  /** The list `updateLeaderboard` builds, looping over the group ids `ids`. */
  function Merged(entries: seq<Entry>, group: string, stored: Option<string>, time: int, ids: seq<string>): seq<Entry>
  {
    if ids == [] then []
    else MergedItem(entries, group, stored, time, ids[0]) + Merged(entries, group, stored, time, ids[1..])
  }

  /** The position of `g` in `ids`. */
  function Position(g: string, ids: seq<string>): (p: nat)
    requires g in ids
    ensures p < |ids| && ids[p] == g
  {
    if ids[0] == g then 0 else 1 + Position(g, ids[1..])
  }

  /** A group of the tail of distinct ids is not the head, and sits one place further along. */
  lemma PositionInTail(g: string, ids: seq<string>)
    requires Distinct(ids) && ids != [] && g in ids[1..]
    ensures g in ids && g != ids[0] && Position(g, ids) == 1 + Position(g, ids[1..])
  {
    var p := Position(g, ids[1..]);
    assert ids[p + 1] == g;
  }

  /** Every entry's group is among `ids`, and the entries follow the order of their groups there. */
  predicate InGroupOrder(r: seq<Entry>, ids: seq<string>)
  {
    && (forall e :: e in r ==> e.group in ids)
    && forall i, j :: 0 <= i < j < |r| ==> r[i] in r && r[j] in r && Position(r[i].group, ids) < Position(r[j].group, ids)
  }

  /** An entry of the head group followed by entries of later groups, in order, is in order. */
  lemma OrderAfterHead(head: seq<Entry>, tail: seq<Entry>, ids: seq<string>)
    requires Distinct(ids) && ids != []
    requires |head| <= 1 && forall e :: e in head ==> e.group == ids[0]
    requires InGroupOrder(tail, ids[1..])
    ensures InGroupOrder(head + tail, ids)
  {
    forall i | 0 <= i < |tail|
      ensures tail[i].group in ids && tail[i].group != ids[0]
      ensures Position(tail[i].group, ids) == 1 + Position(tail[i].group, ids[1..])
    {
      assert tail[i] in tail;
      PositionInTail(tail[i].group, ids);
    }
    var r := head + tail;
    forall i, j | 0 <= i < j < |r|
      ensures Position(r[i].group, ids) < Position(r[j].group, ids)
    {
      if i < |head| {
        assert r[i] == head[0] && r[i].group == ids[0] && Position(ids[0], ids) == 0;
        assert r[j] == tail[j - |head|];
      } else {
        assert r[i] == tail[i - |head|] && r[j] == tail[j - |head|];
        assert tail[i - |head|] in tail && tail[j - |head|] in tail;
      }
    }
  }

  /** The merged list holds only groups of `ids`, in their order, each at most once. */
  lemma {:induction false} MergedOrdered(entries: seq<Entry>, group: string, stored: Option<string>, time: int, ids: seq<string>)
    requires Distinct(ids)
    ensures InGroupOrder(Merged(entries, group, stored, time, ids), ids)
  {
    if ids != [] {
      MergedOrdered(entries, group, stored, time, ids[1..]);
      OrderAfterHead(MergedItem(entries, group, stored, time, ids[0]), Merged(entries, group, stored, time, ids[1..]), ids);
    }
  }

  /**
   * Looking a group of `ids` up in the merged list: the new entry when the time
   * beats the group's previous time, the group's first stored entry otherwise.
   */
  lemma {:induction false} MergedLookup(entries: seq<Entry>, group: string, stored: Option<string>, time: int, ids: seq<string>, g: string)
    requires Distinct(ids) && g in ids
    ensures FindGroup(Merged(entries, group, stored, time, ids), g) ==
              if g == group && time < PreviousTime(entries, g) then Some(Entry(group, stored, time))
              else FindGroup(entries, g)
  {
    var head := MergedItem(entries, group, stored, time, ids[0]);
    var tail := Merged(entries, group, stored, time, ids[1..]);
    FindGroupAppend(head, tail, g);
    if ids[0] == g {
      MergedTailLacksHead(entries, group, stored, time, ids);
      ItemLookup(entries, group, stored, time, g);
    } else {
      PositionInTail(g, ids);
      MergedLookup(entries, group, stored, time, ids[1..], g);
    }
  }

  /** The merge over the ids after the first holds no entry of the first group. */
  lemma MergedTailLacksHead(entries: seq<Entry>, group: string, stored: Option<string>, time: int, ids: seq<string>)
    requires Distinct(ids) && ids != []
    ensures FindGroup(Merged(entries, group, stored, time, ids[1..]), ids[0]).None?
  {
    var tail := Merged(entries, group, stored, time, ids[1..]);
    MergedOrdered(entries, group, stored, time, ids[1..]);
    forall e | e in tail
      ensures e.group != ids[0]
    {
      PositionInTail(e.group, ids);
    }
  }

  /** The item of a group is the new entry when the time beats the previous one, the stored entry otherwise. */
  lemma ItemLookup(entries: seq<Entry>, group: string, stored: Option<string>, time: int, g: string)
    ensures FindGroup(MergedItem(entries, group, stored, time, g), g) ==
              if g == group && time < PreviousTime(entries, g) then Some(Entry(group, stored, time))
              else FindGroup(entries, g)
  {
  }

  /** With a positive time, the merge of valid entries holds only valid entries. */
  lemma {:induction false} MergedValid(entries: seq<Entry>, group: string, stored: Option<string>, time: int, ids: seq<string>)
    requires forall e :: e in entries ==> ValidEntry(e)
    requires time > 0 && forall g :: g in ids ==> g in GroupIds()
    ensures forall e :: e in Merged(entries, group, stored, time, ids) ==> ValidEntry(e)
  {
    if ids != [] {
      MergedValid(entries, group, stored, time, ids[1..]);
      assert ids[0] in ids;
    }
  }

  /** One step of the merge loop: the list for `ids[k..]` is the item for `ids[k]` followed by the rest. */
  lemma MergedStep(entries: seq<Entry>, group: string, stored: Option<string>, time: int, ids: seq<string>, k: int)
    requires 0 <= k < |ids|
    ensures Merged(entries, group, stored, time, ids[k..]) ==
              MergedItem(entries, group, stored, time, ids[k]) + Merged(entries, group, stored, time, ids[k + 1..])
  {
    assert ids[k..][0] == ids[k] && ids[k..][1..] == ids[k + 1..];
  }

  /** What happens to storage: the merged list is written, or storage is cleared when it is empty. */
  datatype StorageWrite = Write(written: seq<Entry>) | Clear

  /**
   * `updateLeaderboard(groupId, player, time)`, over the entries read from
   * storage and the default player's name. Returns the storage update and
   * whether the group's entry was replaced.
   */
  method UpdateLeaderboard(entries: seq<Entry>, group: string, player: string, defaultPlayer: string, time: int)
    returns (write: StorageWrite, isUpdated: bool)
    ensures var merged := Merged(entries, group, StoredPlayer(player, defaultPlayer), time, GroupIds());
            write == if |merged| > 0 then Write(merged) else Clear
    ensures isUpdated <==> group in GroupIds() && time < PreviousTime(entries, group)
  {
    var ids := GroupIds();
    var stored := StoredPlayer(player, defaultPlayer);
    var overwrites: seq<Entry> := [];
    isUpdated := false;
    for k := 0 to |ids|
      invariant overwrites + Merged(entries, group, stored, time, ids[k..]) == Merged(entries, group, stored, time, ids)
      invariant isUpdated <==> group in ids[..k] && time < PreviousTime(entries, group)
    {
      var item := FindGroup(entries, ids[k]);
      var previousTime := if item.Some? then item.value.time else DefaultTime;
      if ids[k] == group && time < previousTime {
        item := Some(Entry(group, stored, time));
        isUpdated := true;
      }
      ghost var before := overwrites;
      ghost var pushed := if item.Some? then [item.value] else [];
      if item.Some? {
        overwrites := overwrites + [item.value];
      }
      assert overwrites == before + pushed;
      ghost var rest := Merged(entries, group, stored, time, ids[k + 1..]);
      calc {
        overwrites + rest;
        { AppendAssociative(before, pushed, rest); }
        before + (pushed + rest);
        { assert pushed == MergedItem(entries, group, stored, time, ids[k]);
          MergedStep(entries, group, stored, time, ids, k); }
        before + Merged(entries, group, stored, time, ids[k..]);
      }
      assert ids[..k + 1] == ids[..k] + [ids[k]];
    }
    assert ids[..|ids|] == ids;
    write := if |overwrites| > 0 then Write(overwrites) else Clear;
  }

  /** After a merge with a positive time, storage read back holds exactly the merged list. */
  lemma UpdateThenRead(entries: seq<Entry>, group: string, stored: Option<string>, time: int)
    requires forall e :: e in entries ==> ValidEntry(e)
    requires time > 0
    ensures var merged := Merged(entries, group, stored, time, GroupIds());
            StorageLeaderboard(Some(JsArray(EntryValues(merged)))) == merged
  {
    MergedValid(entries, group, stored, time, GroupIds());
    StorageRoundTrip(Merged(entries, group, stored, time, GroupIds()));
  }

  /**
   * A best time is exactly a time the merge stores for the group; any other
   * non-negative time leaves the group's entry as it was.
   */
  lemma BestTimeIsStored(entries: seq<Entry>, group: string, stored: Option<string>, time: int)
    requires group in GroupIds() && time >= 0
    ensures var merged := Merged(entries, group, stored, time, GroupIds());
            && (IsBestLeaderboardTime(entries, group, time) ==> FindGroup(merged, group) == Some(Entry(group, stored, time)))
            && (!IsBestLeaderboardTime(entries, group, time) ==> FindGroup(merged, group) == FindGroup(entries, group))
  {
    MergedLookup(entries, group, stored, time, GroupIds(), group);
  }

  /**
   * The check as written calls a time of 999 or more a best time in a group
   * with no entry, yet the merge does not store it.
   */
  lemma BestTimeAsWrittenNotStored(entries: seq<Entry>, group: string, stored: Option<string>, time: int)
    requires group in GroupIds() && FindGroup(entries, group).None? && time >= DefaultTime
    ensures IsBestLeaderboardTimeAsWritten(entries, group, time)
    ensures FindGroup(Merged(entries, group, stored, time, GroupIds()), group).None?
    ensures !IsBestLeaderboardTime(entries, group, time)
  {
    MergedLookup(entries, group, stored, time, GroupIds(), group);
  }

  /** One row of the leaderboard view (the group's translated label is shown by its id here). */
  datatype LeaderboardRow = LeaderboardRow(group: string, player: string, time: int)

  function ViewRows(entries: seq<Entry>, defaultPlayer: string, ids: seq<string>): (rows: seq<LeaderboardRow>)
    ensures |rows| == |ids|
  {
    if ids == [] then []
    else
      var item := FindGroup(entries, ids[0]);
      var row := match item
        case Some(e) => LeaderboardRow(ids[0], if e.player.Some? then e.player.value else defaultPlayer, e.time)
        case None => LeaderboardRow(ids[0], defaultPlayer, DefaultTime);
      [row] + ViewRows(entries, defaultPlayer, ids[1..])
  }

  /** `leaderboard`: one row per preset group, in order. */
  function LeaderboardView(entries: seq<Entry>, defaultPlayer: string): (rows: seq<LeaderboardRow>)
    ensures |rows| == |GroupIds()|
  {
    ViewRows(entries, defaultPlayer, GroupIds())
  }

  /**
   * Each row shows the group's stored time and player, or 999 and the default
   * player; a time is a best time exactly when it is non-negative and below the
   * time the row shows.
   */
  lemma {:induction false} ViewRowsShow(entries: seq<Entry>, defaultPlayer: string, ids: seq<string>, i: int)
    requires 0 <= i < |ids|
    ensures var row := ViewRows(entries, defaultPlayer, ids)[i];
            && row.group == ids[i]
            && row.time == PreviousTime(entries, ids[i])
            && (FindGroup(entries, ids[i]).None? ==> row.player == defaultPlayer && row.time == DefaultTime)
            && (FindGroup(entries, ids[i]).Some? && FindGroup(entries, ids[i]).value.player.None? ==> row.player == defaultPlayer)
            && (FindGroup(entries, ids[i]).Some? && FindGroup(entries, ids[i]).value.player.Some? ==>
                  row.player == FindGroup(entries, ids[i]).value.player.value)
            && forall t :: IsBestLeaderboardTime(entries, ids[i], t) <==> 0 <= t < row.time
  {
    if i > 0 {
      ViewRowsShow(entries, defaultPlayer, ids[1..], i - 1);
    }
  }

  /** With nothing stored every row shows the default player and 999. */
  lemma EmptyLeaderboardView(defaultPlayer: string)
    ensures LeaderboardView([], defaultPlayer) ==
              [LeaderboardRow("beginner", defaultPlayer, 999), LeaderboardRow("intermediate", defaultPlayer, 999),
               LeaderboardRow("expert", defaultPlayer, 999)]
  {
    var ids := GroupIds();
    var rows := LeaderboardView([], defaultPlayer);
    forall i | 0 <= i < 3
      ensures rows[i] == LeaderboardRow(ids[i], defaultPlayer, 999)
    {
      ViewRowsShow([], defaultPlayer, ids, i);
    }
  }
}
