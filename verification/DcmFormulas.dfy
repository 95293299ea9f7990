/** DCM formulas: create and delete keep the formulas of an application type numbered 1..n. An update
    that changes the priority writes back a slice patched at the wrong index; it is modelled as it is,
    with the exact condition under which it does what it should. */
module DcmFormulas {
  import opened Basics
  import opened PriorityOrder
  import opened RuleTable
  import opened NamedRules

  datatype Outcome = Done | BadRequest | NotFound | Conflict | IndexOutOfRange

  /** Device, log upload and VOD settings are stored under the identifier of their formula. */
  datatype Settings = Settings(content: string)

  class DcmFormulaService<R(==, !new)> {
    const table: RuleStore<Body<R>>
    const same: (R, R) -> bool
    var deviceSettings: map<string, Settings>
    var logUploadSettings: map<string, Settings>
    var vodSettings: map<string, Settings>

    constructor (table: RuleStore<Body<R>>, same: (R, R) -> bool)
      ensures this.table == table && this.same == same
      ensures deviceSettings == map[] && logUploadSettings == map[] && vodSettings == map[]
    {
      this.table, this.same := table, same;
      deviceSettings, logUploadSettings, vodSettings := map[], map[], map[];
    }

    /** Another formula of the type has the name or an equal rule. */
    ghost predicate Clashing(rule: Rule<R>)
      reads table
    {
      exists k | k in table.db :: ClashesWith(table.db[k], rule, same)
    }

    /** Stores a new formula. `acceptable` stands for the checks of one formula on its own. Priorities may have
        gaps and ties before; where they are 1..n, they stay so. */
    method CreateDcmRule(rule: Rule<R>, appType: string, acceptable: bool, freshId: string)
      returns (o: Outcome, ghost sorted: seq<Rule<R>>)
      requires Usable(table.db) && appType != ALL
      requires freshId != "" && freshId !in table.db
      modifies table
      ensures Usable(table.db)
      ensures var r := rule.(id := if Blank(rule.id) then freshId else rule.id);
              && (o.Done? <==> && r.id !in old(table.db) && rule.id !in old(table.db)
                               && rule.group == appType && acceptable && !old(Clashing(r)))
              && (o.Done? ==> && Stored(old(table.db), appType, sorted) && Ascending(sorted)
                              && var p := Clamp(r.priority, |sorted| + 1) - 1;
                              Wrote(old(table.db), table.db, Slice(sorted + [r], |sorted|, p)))
              && (old(table.Valid()) && appType in old(table.lists) ==>
                    && table.Valid()
                    && var l := old(table.lists);
                    table.lists == if o.Done? then l[appType := InsertIn(l[appType], r)] else l)
      ensures !o.Done? ==> table.db == old(table.db)
    {
      hide Consistent, InsertIn, Usable, Wrote, Stored, Slice, Ascending;
      sorted := [];
      if rule.id in table.db || rule.group != appType {
        return Conflict, sorted;
      }
      var r := rule.(id := if Blank(rule.id) then freshId else rule.id);
      if !acceptable {
        return BadRequest, sorted;
      }
      var clash := FindClash(table.db, r, same);
      if clash {
        return BadRequest, sorted;
      }
      sorted := table.Insert(r);
      o := Done;
    }

    /** Stores a new version of a formula. With the priority unchanged only that record is written; otherwise the
        patched slice is, and if the old priority names no slot, the request ends in an index out of range. */
    method UpdateDcmRule(rule: Rule<R>, appType: string, acceptable: bool)
      returns (o: Outcome, ghost sorted: seq<Rule<R>>)
      requires Usable(table.db) && appType != ALL
      modifies table
      ensures Usable(table.db)
      ensures var mayTry := && !Blank(rule.id) && rule.group == appType
                            && rule.id in old(table.db) && old(table.db)[rule.id].group == appType
                            && acceptable && !old(Clashing(rule));
              if !mayTry then !o.Done? && !o.IndexOutOfRange?
              else
                var was, n := old(table.db)[rule.id].priority, GroupSize(old(table.db), appType);
                o == if rule.priority == was then Done
                     else if !(1 <= rule.priority <= n + 1) then BadRequest
                     else if !(1 <= was <= n) then IndexOutOfRange
                     else Done
      ensures !o.Done? ==> table.db == old(table.db)
      ensures o.Done? && rule.priority == old(table.db)[rule.id].priority ==> table.db == old(table.db)[rule.id := rule]
      ensures o.Done? && rule.priority != old(table.db)[rule.id].priority ==>
                && Stored(old(table.db), appType, sorted) && Ascending(sorted)
                && var was := old(table.db)[rule.id].priority;
                && 1 <= was <= |sorted|
                && table.db == Written(old(table.db), PatchedSlice(sorted, was, rule))
      ensures o.Done? && old(table.Valid()) && appType in old(table.lists) ==>
                && var l, i := old(table.lists)[appType], old(table.db)[rule.id].priority - 1;
                && 0 <= i < |l| && l[i].id == rule.id
                && (rule.priority == i + 1 || Resubmits(old(table.db), l, i, rule))
                && table.db == if rule.priority == i + 1 then old(table.db)[rule.id := rule]
                               else Written(old(table.db), Submitted(l, i, rule))
    {
      hide Consistent, Listing, Stored, Submitted, PatchedSlice, Ascending, Resubmits, GroupSize;
      sorted := [];
      if Blank(rule.id) || rule.group != appType || rule.id !in table.db || table.db[rule.id].group != rule.group {
        return Conflict, sorted;
      }
      if !acceptable {
        return BadRequest, sorted;
      }
      var clash := FindClash(table.db, rule, same);
      if clash {
        return BadRequest, sorted;
      }
      var oldPriority := table.db[rule.id].priority;
      ghost var was, dense := table.db, table.Valid() && appType in table.lists;
      if rule.priority == oldPriority {
        table.db := table.db[rule.id := rule];
        o := Done;
      } else {
        o, sorted := Reprioritize(rule, oldPriority);
      }
      if o.Done? && dense {
        OnDenseTable(was, table.lists, rule, sorted);
      }
    }

    /** The part of an update that changes the priority. */
    method Reprioritize(rule: Rule<R>, oldPriority: int) returns (o: Outcome, ghost sorted: seq<Rule<R>>)
      requires Usable(table.db) && rule.group != ALL
      modifies table`db
      ensures Usable(table.db) && Stored(old(table.db), rule.group, sorted) && Ascending(sorted)
      ensures var n := GroupSize(old(table.db), rule.group);
              && n == |sorted|
              && o == if !(1 <= rule.priority <= n + 1) then BadRequest
                      else if !(1 <= oldPriority <= n) then IndexOutOfRange
                      else Done
      ensures table.db == if o.Done? then Written(old(table.db), PatchedSlice(sorted, oldPriority, rule))
                          else old(table.db)
    {
      hide Stored, Slice, Ascending, Rearranges, WellKeyed, GroupSize, Patched;
      var newItem := new Item(rule.id, rule.group, rule.priority, rule.body);
      var items := table.Fetch(rule.group);
      ghost var read := Values(items);
      StoredIsDistinct(table.db, rule.group, read);
      var result;
      o, result, sorted := UpdateItem(newItem, items, oldPriority, rule.priority);
      RearrangedIsStored(table.db, rule.group, sorted, read);
      StoredSize(table.db, rule.group, sorted);
      if o.Done? {
        PatchedInGroup(table.db, sorted, oldPriority, rule);
        WrittenIsUsable(table.db, PatchedSlice(sorted, oldPriority, rule), rule.group);
        table.Save(result);
      }
    }

    /** Deletes a formula with its settings and packs its application type. Whatever the priorities were before,
        an earlier update may have broken the numbering, they are 1..n afterwards. */
    method DeleteDcmFormula(id: string, appType: string) returns (o: Outcome, ghost kept: seq<Rule<R>>)
      requires Usable(table.db)
      modifies table, this
      ensures Usable(table.db)
      ensures deviceSettings == if o.Done? then old(deviceSettings) - {id} else old(deviceSettings)
      ensures logUploadSettings == if o.Done? then old(logUploadSettings) - {id} else old(logUploadSettings)
      ensures vodSettings == if o.Done? then old(vodSettings) - {id} else old(vodSettings)
      ensures o.Done? <==> id in old(table.db) && old(table.db)[id].group == appType
      ensures !o.Done? ==> table.db == old(table.db) && table.lists == old(table.lists)
      ensures o.Done? ==>
                && Stored(old(table.db) - {id}, appType, kept) && Ascending(kept)
                && Listing(table.db, appType, Entries(kept)) && Dense(table.db, appType, |kept|)
                && OthersKept(old(table.db) - {id}, table.db, appType)
      ensures old(table.Valid()) && appType in old(table.lists) ==> table.Valid()
      ensures o.Done? && old(table.Valid()) && appType in old(table.lists) ==>
                && var l, i := old(table.lists)[appType], old(table.db)[id].priority - 1;
                && 0 <= i < |l| && l[i].id == id
                && table.lists == old(table.lists)[appType := RemoveAt(l, i)]
    {
      hide Listing, Stored, Dense, Consistent, Ascending;
      kept := [];
      if id !in table.db || table.db[id].group != appType {
        return NotFound, kept;
      }
      kept := table.DeleteAndPack(id);
      ListingIsDense(table.db, appType, Entries(kept));
      if id in deviceSettings {
        deviceSettings := deviceSettings - {id};
      }
      if id in logUploadSettings {
        logUploadSettings := logUploadSettings - {id};
      }
      if id in vodSettings {
        vodSettings := vodSettings - {id};
      }
      o := Done;
    }
  }

  // ---- update

  /** The slice that is written back: the new version goes to index newPriority - 1 of the slice, which is
      its place in the whole list. */
  function Patched<B>(slice: seq<Record<B>>, rule: Record<B>, oldPriority: int, newPriority: int): (r: seq<Record<B>>)
    requires newPriority >= 1
    ensures |r| == |slice|
  {
    if |slice| > newPriority - 1 then slice[newPriority - 1 := rule]
    else if |slice| == 1 && oldPriority == newPriority then slice[0 := rule]
    else slice
  }

  /** The slice an update writes back, for a sorted listing of the type. */
  function PatchedSlice<B>(sorted: seq<Record<B>>, oldPriority: int, rule: Record<B>): (r: seq<Record<B>>)
    requires 1 <= oldPriority <= |sorted| && rule.priority >= 1
  {
    Patched(Slice(sorted, oldPriority - 1, Clamp(rule.priority, |sorted|) - 1), rule, oldPriority, rule.priority)
  }

  lemma PatchedInGroup<B>(db: Table<B>, sorted: seq<Record<B>>, oldPriority: int, rule: Record<B>)
    requires Stored(db, rule.group, sorted) && 1 <= oldPriority <= |sorted| && rule.priority >= 1
    ensures forall r | r in PatchedSlice(sorted, oldPriority, rule) :: r.group == rule.group
  {
    hide Slice;
    SliceInGroup(sorted, oldPriority - 1, Clamp(rule.priority, |sorted|) - 1, rule.group);
  }

  /** UpdateItemAndRepriortize, on the freshly read formulas of the application type. */
  method UpdateItem<B>(newItem: Item<B>, items: seq<Item<B>>, oldPriority: int, newPriority: int)
    returns (o: Outcome, result: seq<Item<B>>, ghost sorted: seq<Record<B>>)
    requires DistinctIds(Values(items)) && newItem !in items && newItem.priority == newPriority
    modifies items
    ensures o == if !(1 <= newPriority <= |items| + 1) then BadRequest
                 else if !(1 <= oldPriority <= |items|) then IndexOutOfRange
                 else Done
    ensures |sorted| == |items| && Rearranges(sorted, old(Values(items))) && Ascending(sorted)
    ensures o.Done? ==> Values(result) == PatchedSlice(sorted, oldPriority, newItem.Value())
  {
    hide Reordered, Ascending, Rearranges, Values, Slice, Patched, DistinctIds;
    result := [];
    var ordered;
    ordered, sorted := Sorted(items);
    if newPriority < 1 || newPriority > |items| + 1 {
      return BadRequest, result, sorted;
    }
    if oldPriority < 1 || oldPriority > |ordered| {
      return IndexOutOfRange, result, sorted;
    }
    var list := PlaceAll(ordered);
    result := Reorganize(list, oldPriority, newPriority);
    result := PatchResult(result, newItem, oldPriority, newPriority);
    o := Done;
  }

  /** Puts the new version at index newPriority - 1 of the slice. */
  method PatchResult<B>(slice: seq<Item<B>>, newItem: Item<B>, oldPriority: int, newPriority: int)
    returns (result: seq<Item<B>>)
    requires newPriority >= 1
    ensures Values(result) == Patched(Values(slice), newItem.Value(), oldPriority, newPriority)
  {
    hide Values;
    PutIn(slice, newPriority - 1, newItem);
    PutIn(slice, 0, newItem);
    result := slice;
    if |result| > newPriority - 1 {
      result := result[newPriority - 1 := newItem];
    } else if |result| == 1 && oldPriority == newPriority {
      result := result[0 := newItem];
    }
  }

  lemma PutIn<B>(items: seq<Item<B>>, i: nat, item: Item<B>)
    ensures i < |items| ==> Values(items[i := item]) == Values(items)[i := item.Value()]
  {
  }

  /** A key written at index k and at no later index. */
  lemma {:induction false} WrittenLast<B>(db: Table<B>, recs: seq<Record<B>>, k: nat)
    requires k < |recs| && forall m | k < m < |recs| :: recs[m].id != recs[k].id
    ensures recs[k].id in Written(db, recs) && Written(db, recs)[recs[k].id] == recs[k]
  {
    if k < |recs| - 1 {
      WrittenLast(db, recs[..|recs| - 1], k);
    }
  }

  lemma {:induction false} WrittenNot<B>(db: Table<B>, recs: seq<Record<B>>, id: string)
    requires id in db && forall m | 0 <= m < |recs| :: recs[m].id != id
    ensures id in Written(db, recs) && Written(db, recs)[id] == db[id]
  {
    if recs != [] {
      WrittenNot(db, recs[..|recs| - 1], id);
    }
  }

  /** A formula at index i of a dense list, submitted with a different priority. */
  ghost predicate Resubmits<B>(db: Table<B>, list: seq<Entry<B>>, i: nat, rule: Record<B>) {
    && WellKeyed(db) && Listing(db, rule.group, list)
    && i < |list| && list[i].id == rule.id
    && 1 <= rule.priority <= |list| + 1 && rule.priority != i + 1
  }

  function Target<B>(list: seq<Entry<B>>, rule: Record<B>): (j: nat)
    requires list != []
    ensures j < |list|
  {
    Clamp(rule.priority, |list|) - 1
  }

  /** What the update writes. */
  function Submitted<B>(list: seq<Entry<B>>, i: nat, rule: Record<B>): (r: seq<Record<B>>)
    requires i < |list| && rule.priority >= 1
  {
    Patched(Slice(Numbering(rule.group, list), i, Target(list, rule)), rule, i + 1, rule.priority)
  }

  /** On a dense table the general effect of an update is the one the lemmas below are about. */
  lemma OnDenseTable<R>(db: Table<Body<R>>, lists: Lists<Body<R>>, rule: Rule<R>, sorted: seq<Rule<R>>)
    requires Consistent(db, lists) && rule.id in db && db[rule.id].group == rule.group && rule.group in lists
    ensures var l, i := lists[rule.group], db[rule.id].priority - 1;
            && 0 <= i < |l| && l[i].id == rule.id
            && (Stored(db, rule.group, sorted) && Ascending(sorted) ==>
                  && |sorted| == |l|
                  && (rule.priority != i + 1 && 1 <= rule.priority <= |l| + 1 ==>
                        Resubmits(db, l, i, rule) && PatchedSlice(sorted, i + 1, rule) == Submitted(l, i, rule)))
  {
    hide Listing, Stored, Slice, Ascending;
    ConsistentFacts(db, lists);
    ListedAt(db, rule.group, lists[rule.group], rule.id);
    if Stored(db, rule.group, sorted) && Ascending(sorted) {
      SortedReading(db, rule.group, lists[rule.group], sorted);
    }
  }

  /** With the priority unchanged the new version simply takes the place of the old one. */
  lemma UnchangedPriority<B>(db: Table<B>, list: seq<Entry<B>>, i: nat, rule: Record<B>)
    requires WellKeyed(db) && Listing(db, rule.group, list)
    requires i < |list| && list[i].id == rule.id && rule.priority == i + 1
    ensures Listing(db[rule.id := rule], rule.group, ReplaceIn(list, i, rule))
  {
    var edited := list[i := Entry(rule.id, rule.body)];
    assert ReplaceIn(list, i, rule) == edited;
    assert Numbering(rule.group, edited) == Numbering(rule.group, list)[i := rule];
    var recs, after := Numbering(rule.group, list), db[rule.id := rule];
    assert forall k | 0 <= k < |recs| :: recs[k] in recs && recs[k].id == list[k].id;
    forall id | id in after && after[id].group == rule.group ensures after[id] in Numbering(rule.group, edited) {
      if id == rule.id {
        assert Numbering(rule.group, edited)[i] == rule;
      } else {
        var k :| 0 <= k < |recs| && recs[k] == db[id];
        assert Numbering(rule.group, edited)[k] == recs[k];
      }
    }
  }

  lemma PatchedInPlace<B>(list: seq<Entry<B>>, i: nat, rule: Record<B>)
    requires i < |list| && list[i].id == rule.id && 1 <= rule.priority <= |list| && rule.priority != i + 1
    requires i == 0 || rule.priority == 1
    ensures Submitted(list, i, rule) == Slice(Numbering(rule.group, list)[i := rule], i, Target(list, rule))
  {
    var j, sorted := Target(list, rule), Numbering(rule.group, list);
    var full := sorted[i := rule];
    forall k: nat | k < |sorted| ensures Renumbered(full, i, j, k) == if k == j then rule
        else Renumbered(sorted, i, j, k) {
    }
  }

  lemma LandsInPlace<B>(db: Table<B>, list: seq<Entry<B>>, i: nat, rule: Record<B>)
    requires Resubmits(db, list, i, rule) && rule.priority <= |list| && (i == 0 || rule.priority == 1)
    ensures Listing(Written(db, Submitted(list, i, rule)), rule.group, ReplaceIn(list, i, rule))
  {
    hide Slice, Reordered, Move, Submitted, Listing, Wrote;
    var j, full := Target(list, rule), Numbering(rule.group, list)[i := rule];
    var recs := Slice(full, i, j);
    PatchedInPlace(list, i, rule);
    EditIsReady(db, list, rule, i);
    SliceIsDistinct(full, i, j);
    WrittenIsWrote(db, recs);
    SliceSuffices(db, Written(db, recs), rule.group, list[i := Entry(rule.id, rule.body)], full, i, j);
  }

  lemma NotPatched<B>(list: seq<Entry<B>>, i: nat, rule: Record<B>)
    requires i < |list| && 1 <= rule.priority <= |list| + 1 && rule.priority != i + 1
    requires rule.priority == |list| + 1 || (i > 0 && i + 1 < 2 * rule.priority - 1)
    ensures Submitted(list, i, rule) == Slice(Numbering(rule.group, list), i, Target(list, rule))
  {
  }

  lemma IsLost<B>(db: Table<B>, list: seq<Entry<B>>, i: nat, rule: Record<B>)
    requires Resubmits(db, list, i, rule)
    requires rule.priority == |list| + 1 || (i > 0 && i + 1 < 2 * rule.priority - 1)
    ensures Listing(Written(db, Submitted(list, i, rule)), rule.group, MoveIn(list, i, rule.priority))
  {
    hide Slice, Reordered, Move, Submitted, Stored, Wrote;
    var j, sorted := Target(list, rule), Numbering(rule.group, list);
    var recs := Slice(sorted, i, j);
    NotPatched(list, i, rule);
    NumberingIsReady(db, rule.group, list, i);
    StoredIsDistinct(db, rule.group, sorted);
    SliceIsDistinct(sorted, i, j);
    WrittenIsWrote(db, recs);
    SliceSuffices(db, Written(db, recs), rule.group, list, sorted, i, j);
  }

  lemma SliceIsDistinct<B>(s: seq<Record<B>>, i: nat, j: nat)
    requires DistinctIds(s) && i < |s| && j < |s|
    ensures DistinctIds(Slice(s, i, j))
  {
    ShiftKeepsIds(s, i, j);
  }

  /** What is written when the new version lands on another formula's slot. */
  lemma SubmittedSlots<B>(list: seq<Entry<B>>, i: nat, rule: Record<B>, j: nat)
    requires i < |list| && rule.priority == j + 1 && 1 <= j <= i && 2 * j <= i
    ensures var recs := Submitted(list, i, rule);
            && |recs| == i - j + 1 && recs[0].id == list[i].id && recs[j] == rule
            && forall m: nat | 1 <= m <= i - j &&
                m != j :: recs[m] == Record(list[m + j - 1].id, rule.group, m + j + 1, list[m + j - 1].body)
  {
    var sorted, recs := Numbering(rule.group, list), Submitted(list, i, rule);
    var whole := Reordered(sorted, i, j);
    assert recs == whole[j..i + 1][j := rule];
    ShiftedSlot(list, rule.group, i, j, 0);
    forall m: nat | 1 <= m <= i - j && m != j
      ensures recs[m] == Record(list[m + j - 1].id, rule.group, m + j + 1, list[m + j - 1].body)
    {
      ShiftedSlot(list, rule.group, i, j, m);
      assert recs[m] == whole[m + j];
    }
  }

  /** The slots of a list shifted from index i down to index j. */
  lemma ShiftedSlot<B>(list: seq<Entry<B>>, group: string, i: nat, j: nat, m: nat)
    requires j <= i < |list| && m <= i - j
    ensures var e := if m == 0 then list[i] else list[m + j - 1];
            Reordered(Numbering(group, list), i, j)[m + j] == Record(e.id, group, m + j + 1, e.body)
  {
    assert Source(i, j, m + j) == if m == 0 then i else m + j - 1;
  }

  /** The new version overwrites the slot of another formula, whose new number is never written: two
      formulas end up with the same priority. */
  lemma DisplacesAnother<B>(db: Table<B>, list: seq<Entry<B>>, i: nat, rule: Record<B>)
    requires Resubmits(db, list, i, rule)
    requires 2 <= rule.priority <= |list| && i + 1 >= 2 * rule.priority - 1
    ensures !Dense(Written(db, Submitted(list, i, rule)), rule.group, |list|)
  {
    hide Submitted;
    var j, sorted := rule.priority - 1, Numbering(rule.group, list);
    var recs := Submitted(list, i, rule);
    SubmittedSlots(list, i, rule, j);
    assert forall m: nat | m < |list| :: sorted[m] in sorted && sorted[m].id == list[m].id;
    var d := list[2 * j - 1].id;
    WrittenNot(db, recs, d);
    var e := if j == 1 then j else j - 1;
    WrittenLast(db, recs, e);
    var after := Written(db, recs);
    assert recs[e].group == rule.group && after[d].priority == 2 * j == after[recs[e].id].priority;
  }

  /** An update that changes the priority does what it should - new version stored, at the place asked
      for, everything renumbered - exactly when the old or the new priority is 1, or nothing but the priority
      changes and the slot that is patched lies past the slice. (A priority one past the end is accepted as
      well, and loses the new content.) */
  lemma UpdateIsRightExactlyWhen<B>(db: Table<B>, list: seq<Entry<B>>, i: nat, rule: Record<B>)
    requires Resubmits(db, list, i, rule)
    ensures Listing(Written(db, Submitted(list, i, rule)), rule.group, ReplaceIn(list, i, rule)) <==>
            || (rule.priority <= |list| && (i + 1 == 1 || rule.priority == 1))
            || (rule.body == list[i].body && (rule.priority == |list| + 1 || i + 1 < 2 * rule.priority - 1))
  {
    hide Submitted, Listing, Written, ReplaceIn, MoveIn;
    var after := Written(db, Submitted(list, i, rule));
    if rule.priority <= |list| && (i == 0 || rule.priority == 1) {
      LandsInPlace(db, list, i, rule);
    } else if rule.priority == |list| + 1 || i + 1 < 2 * rule.priority - 1 {
      IsLost(db, list, i, rule);
      if rule.body == list[i].body {
        assert list[i := Entry(rule.id, rule.body)] == list;
        SameMove(list, i, rule);
      } else if Listing(after, rule.group, ReplaceIn(list, i, rule)) {
        ListingIsUnique(after, rule.group, ReplaceIn(list, i, rule), MoveIn(list, i, rule.priority));
        MovesDiffer(list, i, rule);
      }
    } else {
      DisplacesAnother(db, list, i, rule);
      if Listing(after, rule.group, ReplaceIn(list, i, rule)) {
        ReplaceInSize(list, i, rule);
        WrittenIsKeyed(db, Submitted(list, i, rule));
        ListingIsDense(after, rule.group, ReplaceIn(list, i, rule));
      }
    }
  }

  /** The numbering survives an update that changes the priority exactly when the new priority is 1 or
      the old one is less than twice the new one minus 1. */
  lemma UpdateKeepsNumbering<B>(db: Table<B>, list: seq<Entry<B>>, i: nat, rule: Record<B>)
    requires Resubmits(db, list, i, rule)
    ensures Dense(Written(db, Submitted(list, i, rule)), rule.group, |list|) <==>
            rule.priority == 1 || i + 1 < 2 * rule.priority - 1 || rule.priority == |list| + 1
  {
    hide Submitted, Listing, Written, ReplaceIn, MoveIn, Dense;
    var after := Written(db, Submitted(list, i, rule));
    WrittenIsKeyed(db, Submitted(list, i, rule));
    ReplaceInSize(list, i, rule);
    if rule.priority <= |list| && (i == 0 || rule.priority == 1) {
      LandsInPlace(db, list, i, rule);
      ListingIsDense(after, rule.group, ReplaceIn(list, i, rule));
    } else if rule.priority == |list| + 1 || i + 1 < 2 * rule.priority - 1 {
      IsLost(db, list, i, rule);
      ListingIsDense(after, rule.group, MoveIn(list, i, rule.priority));
    } else {
      DisplacesAnother(db, list, i, rule);
    }
  }

  lemma ReplaceInSize<B>(list: seq<Entry<B>>, i: nat, rule: Record<B>)
    requires i < |list|
    ensures |ReplaceIn(list, i, rule)| == |list| == |MoveIn(list, i, rule.priority)|
  {
    MoveAt(list, i, Clamp(rule.priority, |list|) - 1, 0);
    MoveAt(list[i := Entry(rule.id, rule.body)], i, Clamp(rule.priority, |list|) - 1, 0);
  }

  lemma SameMove<B>(list: seq<Entry<B>>, i: nat, rule: Record<B>)
    requires i < |list| && list[i := Entry(rule.id, rule.body)] == list
    ensures ReplaceIn(list, i, rule) == MoveIn(list, i, rule.priority)
  {
  }

  lemma MovesDiffer<B>(list: seq<Entry<B>>, i: nat, rule: Record<B>)
    requires i < |list| && rule.body != list[i].body
    ensures ReplaceIn(list, i, rule) != MoveIn(list, i, rule.priority)
  {
    var j := Clamp(rule.priority, |list|) - 1;
    MoveAt(list, i, j, j);
    MoveAt(list[i := Entry(rule.id, rule.body)], i, j, j);
  }

  lemma {:induction false} WrittenIsKeyed<B>(db: Table<B>, recs: seq<Record<B>>)
    requires WellKeyed(db)
    ensures WellKeyed(Written(db, recs))
  {
    if recs != [] {
      WrittenIsKeyed(db, recs[..|recs| - 1]);
    }
  }
}
