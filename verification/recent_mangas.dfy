/** The list of recently read mangas (MangaReader/RecentMangas.cs): pinned
    entries first, then at most ten unpinned ones, most recent first, with
    at most one entry per manga directory. Saving, loading and the event
    wiring are left out; an entry's key is its manga directory. */
module RecentMangas {
  import opened Util
  import opened Drawing

  /** At most this many unpinned entries are kept. */
  const Limit: int := 10

  /** `MangaState`: the directory that identifies the manga, the page being
      read, the view on it and the pinned flag. The configuration is left
      out. */
  datatype MangaState = MangaState(key: string, page: string, view: Rect, pinned: bool)

  datatype Recents = Recents(recent: seq<MangaState>, pinnedCount: int)

  /** The state after a call, and the exception it ended with, if any:
      changes made before a throw stay. */
  datatype Outcome = Outcome(after: Recents, thrown: Option<Failure>)

  function Done(r: Recents): Outcome { Outcome(r, None) }

  /** Pinned entries come first and are counted by `pinnedCount`. */
  predicate Layout(r: Recents) {
    0 <= r.pinnedCount <= |r.recent| &&
    (forall i :: 0 <= i < |r.recent| ==> (r.recent[i].pinned <==> i < r.pinnedCount))
  }

  predicate DistinctKeys(s: seq<MangaState>) {
    forall i, j :: 0 <= i < j < |s| ==> s[i].key != s[j].key
  }

  /** The invariant the list is meant to keep. */
  predicate Valid(r: Recents) {
    Layout(r) && DistinctKeys(r.recent) && |r.recent| - r.pinnedCount <= Limit
  }

  function Keys(s: seq<MangaState>): set<string> {
    set i | 0 <= i < |s| :: s[i].key
  }

  // ---------------------------------------------------------------------
  // findState and removeState

  /** `findState`: the first position holding the same manga, or -1. */
  function FindState(s: seq<MangaState>, state: MangaState): (r: int)
    ensures r == -1 <==> state.key !in Keys(s)
    ensures r != -1 ==> (0 <= r < |s| && s[r].key == state.key &&
      forall j :: 0 <= j < r ==> s[j].key != state.key)
  {
    if |s| == 0 then -1
    else if s[0].key == state.key then 0
    else
      var r := FindState(s[1..], state);
      assert forall k :: k in Keys(s) <==> k == s[0].key || k in Keys(s[1..]) by {
        forall k | k in Keys(s[1..])
          ensures k in Keys(s)
        {
          var i :| 0 <= i < |s[1..]| && s[1..][i].key == k;
          assert s[i + 1].key == k;
        }
        forall k | k in Keys(s) && k != s[0].key
          ensures k in Keys(s[1..])
        {
          var i :| 0 <= i < |s| && s[i].key == k;
          assert s[1..][i - 1].key == k;
        }
      }
      if r == -1 then -1 else r + 1
  }

  /** `removeState` as written: the entry is read, then `RemoveAt` is given
      the list's length, which is always out of range. */
  function RemoveStateAsWritten(r: Recents, index: int): (o: Outcome)
    ensures o.after == r
    ensures o.thrown.Some? <==> index != -1
  {
    if index == -1 then Done(r)
    else if !(0 <= index < |r.recent|) then Outcome(r, Some(IndexOutOfRange))
    else Outcome(r, Some(IndexOutOfRange))
  }

  /** Every removal throws, before anything has changed. */
  lemma RemoveStateAlwaysThrows(r: Recents, index: int)
    ensures RemoveStateAsWritten(r, index).after == r
    ensures RemoveStateAsWritten(r, index).thrown.Some? <==> index != -1
  {
  }

  /** `removeState` as evidently intended: `RemoveAt(index)`, then the
      pinned count follows the removed entry. */
  function RemoveState(r: Recents, index: int): (o: Outcome)
    ensures o.thrown.Some? <==> index != -1 && !(0 <= index < |r.recent|)
    ensures o.thrown.None? && index != -1 ==>
      |o.after.recent| == |r.recent| - 1 &&
      (forall i :: 0 <= i < index ==> o.after.recent[i] == r.recent[i]) &&
      (forall i :: index <= i < |o.after.recent| ==> o.after.recent[i] == r.recent[i + 1])
    ensures Layout(r) ==> Layout(o.after)
    ensures DistinctKeys(r.recent) ==> DistinctKeys(o.after.recent)
    ensures |o.after.recent| - o.after.pinnedCount <= |r.recent| - r.pinnedCount || !Layout(r)
  {
    if index == -1 then Done(r)
    else if !(0 <= index < |r.recent|) then Outcome(r, Some(IndexOutOfRange))
    else
      var state := r.recent[index];
      var recent := r.recent[..index] + r.recent[index + 1..];
      Done(Recents(recent, if state.pinned then r.pinnedCount - 1 else r.pinnedCount))
  }

  /** The removal the rest of the list operations use: as written unless
      `fixed` selects the intended one. */
  function Remove(r: Recents, index: int, fixed: bool): Outcome {
    if fixed then RemoveState(r, index) else RemoveStateAsWritten(r, index)
  }

  // ---------------------------------------------------------------------
  // Adding entries

  /** `trimRecents`: when more than ten entries are unpinned, the last one
      goes. The last entry is read first, which throws on an empty list. */
  function TrimRecents(r: Recents, fixed: bool): (o: Outcome)
    ensures |r.recent| - r.pinnedCount <= Limit ==> o == Done(r)
    ensures |r.recent| - r.pinnedCount > Limit && (!fixed || |r.recent| == 0) ==>
      o == Outcome(r, Some(IndexOutOfRange))
    ensures |r.recent| - r.pinnedCount > Limit && fixed && |r.recent| > 0 ==>
      o.thrown.None? && o.after.recent == r.recent[..|r.recent| - 1] &&
      o.after.pinnedCount == r.pinnedCount - (if r.recent[|r.recent| - 1].pinned then 1 else 0)
  {
    if |r.recent| - r.pinnedCount <= Limit then Done(r)
    else if |r.recent| == 0 then Outcome(r, Some(IndexOutOfRange))
    else Remove(r, |r.recent| - 1, fixed)
  }

  /** `addPinned`: in front, one more pinned entry. */
  function AddPinned(r: Recents, state: MangaState): (r': Recents)
    ensures r'.recent == [state] + r.recent && r'.pinnedCount == r.pinnedCount + 1
  {
    Recents([state] + r.recent, r.pinnedCount + 1)
  }

  function Insert(s: seq<MangaState>, i: nat, x: MangaState): (t: seq<MangaState>)
    requires i <= |s|
    ensures |t| == |s| + 1 && t[i] == x
    ensures forall k :: 0 <= k < i ==> t[k] == s[k]
    ensures forall k :: i < k < |t| ==> t[k] == s[k - 1]
  {
    s[..i] + [x] + s[i..]
  }

  /** `addUnpinned`: right after the pinned entries, then trimmed. A pinned
      count outside the list, which only a list whose pinned entries are not
      first can reach, makes `Insert` throw out of range. */
  function AddUnpinned(r: Recents, state: MangaState, fixed: bool): (o: Outcome)
    ensures !(0 <= r.pinnedCount <= |r.recent|) ==> o == Outcome(r, Some(IndexOutOfRange))
    ensures 0 <= r.pinnedCount <= |r.recent| ==>
      (o.thrown.None? <==> fixed || |r.recent| - r.pinnedCount < Limit)
    ensures o.thrown.None? ==>
      0 <= r.pinnedCount < |o.after.recent| && o.after.recent[r.pinnedCount] == state &&
      (forall k :: 0 <= k < r.pinnedCount ==> o.after.recent[k] == r.recent[k]) &&
      |o.after.recent| == (if |r.recent| - r.pinnedCount < Limit then |r.recent| + 1 else |r.recent|)
  {
    if 0 <= r.pinnedCount <= |r.recent| then
      TrimRecents(Recents(Insert(r.recent, r.pinnedCount, state), r.pinnedCount), fixed)
    else Outcome(r, Some(IndexOutOfRange))
  }

  /** `addRecent`: a pinned state goes in front, an unpinned one after the
      pinned entries. */
  function AddRecent(r: Recents, state: MangaState, fixed: bool): (o: Outcome)
    ensures state.pinned ==>
      o.thrown.None? && o.after.recent == [state] + r.recent && o.after.pinnedCount == r.pinnedCount + 1
    ensures o.thrown.None? ==> state in o.after.recent
  {
    if state.pinned then Done(AddPinned(r, state)) else AddUnpinned(r, state, fixed)
  }

  /** `updateRecentState`: a new manga is added; one already listed with
      the same pinned flag is replaced in place; otherwise the old entry is
      removed and the new one added. */
  function UpdateRecentState(r: Recents, state: MangaState, fixed: bool): (o: Outcome)
    ensures state.key !in Keys(r.recent) ==> o == AddRecent(r, state, fixed)
    ensures state.key in Keys(r.recent) && r.recent[FindState(r.recent, state)].pinned == state.pinned ==>
      o.thrown.None? && o.after.pinnedCount == r.pinnedCount && |o.after.recent| == |r.recent| &&
      state in o.after.recent &&
      (forall i :: 0 <= i < |r.recent| && r.recent[i].key != state.key ==> o.after.recent[i] == r.recent[i])
  {
    var ri := FindState(r.recent, state);
    if ri == -1 then AddRecent(r, state, fixed)
    else if r.recent[ri].pinned == state.pinned then
      assert r.recent[ri := state][ri] == state;
      Done(Recents(r.recent[ri := state], r.pinnedCount))
    else
      var removed := Remove(r, ri, fixed);
      if removed.thrown.Some? then removed
      else AddRecent(removed.after, state, fixed)
  }

  /** `AddRecent(page, view)`: the page being read, unpinned. */
  function AddRecentPage(r: Recents, key: string, page: string, view: Rect, fixed: bool): Outcome
  {
    UpdateRecentState(r, MangaState(key, page, view, false), fixed)
  }

  // ---------------------------------------------------------------------
  // What the operations keep, with the intended removal

  /** Inserting the first unpinned entry keeps the layout. */
  lemma InsertUnpinnedLayout(r: Recents, state: MangaState)
    requires Layout(r) && !state.pinned
    ensures Layout(Recents(Insert(r.recent, r.pinnedCount, state), r.pinnedCount))
  {
  }

  lemma InsertKeys(s: seq<MangaState>, i: nat, x: MangaState)
    requires i <= |s| && DistinctKeys(s) && x.key !in Keys(s)
    ensures DistinctKeys(Insert(s, i, x))
    ensures Keys(Insert(s, i, x)) == Keys(s) + {x.key}
  {
    var t := Insert(s, i, x);
    forall a, b | 0 <= a < b < |t|
      ensures t[a].key != t[b].key
    {
      if a != i && b != i {
        var a', b' := if a < i then a else a - 1, if b < i then b else b - 1;
        assert t[a] == s[a'] && t[b] == s[b'];
      } else if a == i {
        assert t[b].key in Keys(s) by {
          assert t[b] == s[b - 1];
        }
      } else {
        assert t[a].key in Keys(s);
      }
    }
    forall k | k in Keys(s)
      ensures k in Keys(t)
    {
      var j :| 0 <= j < |s| && s[j].key == k;
      if j < i {
        assert t[j] == s[j];
      } else {
        assert t[j + 1] == s[j];
      }
    }
    assert t[i] == x;
  }

  /** Adding an unlisted manga keeps the list valid and lists it. */
  lemma AddRecentValid(r: Recents, state: MangaState)
    requires Valid(r) && state.key !in Keys(r.recent)
    ensures var o := AddRecent(r, state, true);
      o.thrown.None? && Valid(o.after) && state in o.after.recent
  {
    InsertKeys(r.recent, if state.pinned then 0 else r.pinnedCount, state);
    if state.pinned {
      assert Insert(r.recent, 0, state) == [state] + r.recent;
    } else {
      var t := Recents(Insert(r.recent, r.pinnedCount, state), r.pinnedCount);
      InsertUnpinnedLayout(r, state);
      if |t.recent| - t.pinnedCount > Limit {
        assert t.recent[r.pinnedCount] == state;
        assert RemoveState(t, |t.recent| - 1).after.recent[r.pinnedCount] == state;
      }
    }
  }

  /** The intended update keeps the list valid, never throws, and leaves
      the new state listed where `findState` finds it. */
  lemma UpdateRecentStateValid(r: Recents, state: MangaState)
    requires Valid(r)
    ensures var o := UpdateRecentState(r, state, true);
      o.thrown.None? && Valid(o.after) && state in o.after.recent
  {
    var ri := FindState(r.recent, state);
    if ri == -1 {
      AddRecentValid(r, state);
    } else if r.recent[ri].pinned == state.pinned {
      var s := r.recent[ri := state];
      forall a, b | 0 <= a < b < |s|
        ensures s[a].key != s[b].key
      {
        assert a != ri ==> s[a] == r.recent[a];
        assert b != ri ==> s[b] == r.recent[b];
      }
      assert s[ri] == state;
    } else {
      var removed := RemoveState(r, ri).after;
      RemovedKey(r, ri);
      AddRecentValid(removed, state);
    }
  }

  /** Removing the entry of a manga removes its key. */
  lemma RemovedKey(r: Recents, index: nat)
    requires Valid(r) && index < |r.recent|
    ensures Valid(RemoveState(r, index).after)
    ensures r.recent[index].key !in Keys(RemoveState(r, index).after.recent)
  {
  }

  // ---------------------------------------------------------------------
  // What the code as written does

  /** A change of pinned flag on a listed manga throws in the removal and
      leaves the list as it was. */
  lemma PinChangeThrows(r: Recents, state: MangaState)
    requires state.key in Keys(r.recent) && r.recent[FindState(r.recent, state)].pinned != state.pinned
    ensures UpdateRecentState(r, state, false) == Outcome(r, Some(IndexOutOfRange))
  {
  }

  /** Reading again a manga listed as pinned, as in a list loaded from its
      file, builds an unpinned state: the flags differ and the removal
      throws, leaving the list as it was. */
  lemma ReadingPinnedThrows(r: Recents, key: string, page: string, view: Rect)
    requires key in Keys(r.recent) && r.recent[FindState(r.recent, MangaState(key, page, view, false))].pinned
    ensures AddRecentPage(r, key, page, view, false) == Outcome(r, Some(IndexOutOfRange))
  {
    PinChangeThrows(r, MangaState(key, page, view, false));
  }

  /** With ten unpinned entries, adding an eleventh inserts it and then
      throws in the trim: the list is left one entry over the limit. */
  lemma EleventhUnpinnedOverflows(r: Recents, state: MangaState)
    requires Layout(r) && |r.recent| - r.pinnedCount == Limit && !state.pinned
    ensures var o := AddUnpinned(r, state, false);
      o.thrown == Some(IndexOutOfRange) &&
      o.after.recent == Insert(r.recent, r.pinnedCount, state) &&
      |o.after.recent| - o.after.pinnedCount == Limit + 1
  {
  }

  // ---------------------------------------------------------------------
  // Change notifications and loading

  /** `state_PropertyChanged`: a "Pinned" notification from `sender`
      updates its entry; any other property is ignored. */
  function StatePropertyChanged(r: Recents, propertyName: string, sender: MangaState, fixed: bool): (o: Outcome)
    ensures propertyName != "Pinned" ==> o == Done(r)
  {
    if propertyName == "Pinned" then UpdateRecentState(r, sender, fixed) else Done(r)
  }

  /** The sender of a notification is the listed object itself, already
      changed: in a list with one entry per manga it finds itself with an
      equal flag, and the list is unchanged. */
  lemma PinnedNotificationNoChange(r: Recents, propertyName: string, k: nat, fixed: bool)
    requires DistinctKeys(r.recent) && k < |r.recent|
    ensures StatePropertyChanged(r, propertyName, r.recent[k], fixed) == Done(r)
  {
    if propertyName == "Pinned" {
      assert r.recent[k].key in Keys(r.recent);
      var ri := FindState(r.recent, r.recent[k]);
      assert ri == k;
      assert r.recent[ri := r.recent[k]] == r.recent;
    }
  }

  /** The number of pinned entries. */
  function CountPinned(s: seq<MangaState>): (n: nat)
    ensures n <= |s|
  {
    if |s| == 0 then 0 else CountPinned(s[..|s| - 1]) + (if s[|s| - 1].pinned then 1 else 0)
  }

  /** `fixupDeserialized`: the loaded list, unchanged, with its pinned
      entries counted. */
  function FixupDeserialized(recent: seq<MangaState>): (r: Recents)
    ensures r.recent == recent && 0 <= r.pinnedCount <= |recent|
  {
    Recents(recent, CountPinned(recent))
  }

  /** In a list laid out pinned-first, the count is the number of leading
      pinned entries. */
  lemma {:induction false} CountPinnedLayout(s: seq<MangaState>, p: nat)
    requires p <= |s| && forall i :: 0 <= i < |s| ==> (s[i].pinned <==> i < p)
    ensures CountPinned(s) == p
  {
    if |s| > 0 {
      var init := s[..|s| - 1];
      if p == |s| {
        CountPinnedLayout(init, p - 1);
      } else {
        CountPinnedLayout(init, p);
      }
    }
  }

  /** Loading a saved list that was laid out pinned-first restores it: the
      count `fixupDeserialized` computes is the one that was dropped. */
  lemma FixupRestores(r: Recents)
    requires Layout(r)
    ensures FixupDeserialized(r.recent) == r
  {
    CountPinnedLayout(r.recent, r.pinnedCount);
  }
}
