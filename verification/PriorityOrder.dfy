/** Rules that are evaluated in priority order. Feature rules, firmware rule templates and DCM
    formulas keep a 1-based priority and share one algorithm: shift a slice of the sorted list in
    place, renumber it, and hand back only the slice that must be written to the store. */
module PriorityOrder {
  import opened Basics

  /** What the store keeps for a rule: its key, the group it is ordered in (application type or
      action type), its priority, and everything else. */
  datatype Record<B> = Record(id: string, group: string, priority: int, body: B)

  /** A rule object as the services pass it around; only the priority is ever assigned. */
  class Item<B> {
    const id: string
    const group: string
    const body: B
    var priority: int

    constructor (id: string, group: string, priority: int, body: B)
      ensures this.id == id && this.group == group && this.priority == priority && this.body == body
    {
      this.id, this.group, this.priority, this.body := id, group, priority, body;
    }

    function Value(): Record<B>
      reads this
    {
      Record(id, group, priority, body)
    }
  }

  // ---- list operations, without priorities

  /** A requested position outside 1..n means "last". */
  function Clamp(position: int, n: nat): (p: nat)
    ensures n > 0 ==> 1 <= p <= n
  {
    if position < 1 || position > n then n else position
  }

  function InsertAt<T>(s: seq<T>, i: nat, x: T): (r: seq<T>)
    requires i <= |s|
  {
    s[..i] + [x] + s[i..]
  }

  function RemoveAt<T>(s: seq<T>, i: nat): (r: seq<T>)
    requires i < |s|
  {
    s[..i] + s[i + 1..]
  }

  function Move<T>(s: seq<T>, i: nat, j: nat): (r: seq<T>)
    requires i < |s| && j < |s|
  {
    InsertAt(RemoveAt(s, i), j, s[i])
  }

  /** The indices from one position to the other, as a half-open range. */
  function Low(i: int, j: int): int { if i < j then i else j }

  function High(i: int, j: int): int { (if i < j then j else i) + 1 }

  /** Where the element at index k of Move(s, i, j) comes from. */
  function Source(i: nat, j: nat, k: nat): (from: nat)
    ensures if Low(i, j) <= k < High(i, j) then Low(i, j) <= from < High(i, j) else from == k
  {
    if k == j then i else if i <= k < j then k + 1 else if j < k <= i then k - 1 else k
  }

  lemma MoveAt<T>(s: seq<T>, i: nat, j: nat, k: nat)
    requires i < |s| && j < |s| && k < |s|
    ensures |Move(s, i, j)| == |s|
    ensures Source(i, j, k) < |s| && Move(s, i, j)[k] == s[Source(i, j, k)]
    ensures Source(j, i, Source(i, j, k)) == k == Source(i, j, Source(j, i, k))
  {
  }

  lemma MoveAndBack<T>(s: seq<T>, i: nat, j: nat)
    requires i < |s| && j < |s|
    ensures |Move(s, i, j)| == |s|
    ensures Move(Move(s, i, j), j, i) == s
  {
    MoveAt(s, i, j, 0);
    var m := Move(s, i, j);
    assert RemoveAt(m, j) == RemoveAt(s, i);
    assert m[j] == s[i];
  }

  // ---- the same operation on records, which is what the in-place shift must compute

  predicate DistinctIds<B>(s: seq<Record<B>>) {
    forall i, j :: 0 <= i < j < |s| ==> s[i].id != s[j].id
  }

  predicate Ascending<B>(s: seq<Record<B>>) {
    forall i, j :: 0 <= i < j < |s| ==> s[i].priority <= s[j].priority
  }

  /** Priorities are exactly 1..n, in list order. */
  predicate Numbered<B>(s: seq<Record<B>>) {
    forall k :: 0 <= k < |s| ==> s[k].priority == k + 1
  }

  /** Moves s[i] to index j; only the slots between the two positions are renumbered. */
  function Reordered<B>(s: seq<Record<B>>, i: nat, j: nat): (r: seq<Record<B>>)
    requires i < |s| && j < |s|
    ensures |r| == |s|
  {
    seq(|s|, k requires 0 <= k < |s| => Renumbered(s, i, j, k))
  }

  function Renumbered<B>(s: seq<Record<B>>, i: nat, j: nat, k: nat): Record<B>
    requires i < |s| && j < |s| && k < |s|
  {
    if Low(i, j) <= k < High(i, j) then s[Source(i, j, k)].(priority := k + 1) else s[k]
  }

  /** The slice a shift from index i to index j of a sorted list hands back. */
  function Slice<B>(sorted: seq<Record<B>>, i: nat, j: nat): (r: seq<Record<B>>)
    requires i < |sorted| && j < |sorted|
  {
    Reordered(sorted, i, j)[Low(i, j)..High(i, j)]
  }

  ghost predicate Holds<B>(recs: seq<Record<B>>, id: string) {
    exists r | r in recs :: r.id == id
  }

  lemma BySlots<B>(was: seq<Record<B>>, now: seq<Record<B>>, i: nat, j: nat)
    requires i < |was| == |now| && j < |was|
    requires forall k: nat | k < |was| :: now[k] == Renumbered(was, i, j, k)
    ensures now == Reordered(was, i, j)
  {
  }

  lemma SourceInverse(i: nat, j: nat, k: nat)
    ensures Source(j, i, Source(i, j, k)) == k
  {
  }

  lemma ShiftKeepsIds<B>(full: seq<Record<B>>, i: nat, j: nat)
    requires DistinctIds(full) && i < |full| && j < |full|
    ensures DistinctIds(Reordered(full, i, j))
    ensures forall id :: Holds(full, id) <==> Holds(Reordered(full, i, j), id)
  {
    var whole := Reordered(full, i, j);
    forall a, b | 0 <= a < b < |whole| ensures whole[a].id != whole[b].id {
      SourceInverse(i, j, a);
      SourceInverse(i, j, b);
      assert whole[a].id == full[Source(i, j, a)].id && whole[b].id == full[Source(i, j, b)].id;
    }
    forall id ensures Holds(full, id) <==> Holds(whole, id) {
      ShiftHolds(full, i, j, id);
    }
  }

  lemma ShiftHolds<B>(full: seq<Record<B>>, i: nat, j: nat, id: string)
    requires i < |full| && j < |full|
    ensures Holds(full, id) <==> Holds(Reordered(full, i, j), id)
  {
    var whole := Reordered(full, i, j);
    if Holds(full, id) {
      var k: nat :| k < |full| && full[k].id == id;
      SourceInverse(j, i, k);
      assert whole[Source(j, i, k)] in whole;
    }
    if Holds(whole, id) {
      var k: nat :| k < |whole| && whole[k].id == id;
      assert full[Source(i, j, k)] in full;
    }
  }

  /** On a numbered list, shifting a rule and shifting it back restores every slot and every priority. */
  lemma ShiftAndBack<B>(s: seq<Record<B>>, i: nat, j: nat)
    requires Numbered(s) && i < |s| && j < |s|
    ensures Numbered(Reordered(s, i, j))
    ensures Reordered(Reordered(s, i, j), j, i) == s
  {
    forall k: nat | k < |s| ensures Renumbered(Reordered(s, i, j), j, i, k) == s[k] {
      SourceInverse(j, i, k);
    }
  }

  // ---- the in-place shift

  /** Slots from..to-1 (1-based: positions from+1..to) each move one place towards the front. */
  method ShiftForward<B>(list: array<Item<B>>, from: nat, to: nat)
    requires NoDup(list[..])
    requires 1 <= from <= to <= list.Length
    modifies list, list[..]
    ensures var was := old(list[..]);
            && (forall k | from - 1 <= k < to - 1 :: list[k] == was[k + 1])
            && (forall k | 0 <= k < |was| && !(from - 1 <= k < to - 1) :: list[k] == was[k])
            && (forall k | from <= k < to :: was[k].priority == k)
            && (forall k | 0 <= k < |was| && !(from <= k < to) :: was[k].priority == old(was[k].priority))
  {
    ghost var was := list[..];
    for i := from to to
      invariant forall k | from - 1 <= k < i - 1 :: list[k] == was[k + 1]
      invariant forall k | 0 <= k < |was| && !(from - 1 <= k < i - 1) :: list[k] == was[k]
      invariant forall k | from <= k < i :: was[k].priority == k
      invariant forall k | 0 <= k < |was| && !(from <= k < i) :: was[k].priority == old(was[k].priority)
    {
      var buf := list[i];
      assert buf == was[i];
      buf.priority := i;
      list[i - 1] := buf;
    }
  }

  /** Slots to-1..from-2 each move one place towards the end. */
  method ShiftBackward<B>(list: array<Item<B>>, from: nat, to: nat)
    requires NoDup(list[..])
    requires 1 <= to <= from <= list.Length
    modifies list, list[..]
    ensures var was := old(list[..]);
            && (forall k | to <= k < from :: list[k] == was[k - 1])
            && (forall k | 0 <= k < |was| && !(to <= k < from) :: list[k] == was[k])
            && (forall k | to - 1 <= k < from - 1 :: was[k].priority == k + 2)
            && (forall k | 0 <= k < |was| && !(to - 1 <= k < from - 1) :: was[k].priority == old(was[k].priority))
  {
    ghost var was := list[..];
    for i := from - 1 downto to - 1
      invariant forall k | i < k < from :: list[k] == was[k - 1]
      invariant forall k | 0 <= k < |was| && !(i < k < from) :: list[k] == was[k]
      invariant forall k | i <= k < from - 1 :: was[k].priority == k + 2
      invariant forall k | 0 <= k < |was| && !(i <= k < from - 1) :: was[k].priority == old(was[k].priority)
    {
      var buf := list[i];
      assert buf == was[i];
      buf.priority := i + 2;
      list[i + 1] := buf;
    }
  }

  /** Moves the item in slot i to slot j and renumbers every slot in between. */
  method MoveSlot<B>(list: array<Item<B>>, i: nat, j: nat)
    requires NoDup(list[..]) && i < list.Length && j < list.Length
    modifies list, list[..]
    ensures var was := old(list[..]);
            && (forall k: nat | k < |was| :: list[k] == was[Source(i, j, k)])
            && (forall k | Low(i, j) <= k < High(i, j) :: list[k].priority == k + 1)
            && (forall k | 0 <= k < |was| && !(Low(i, j) <= k < High(i, j)) :: was[k].priority == old(was[k].priority))
  {
    var item := list[i];
    item.priority := j + 1;
    if i < j {
      ShiftForward(list, i + 1, j + 1);
    }
    if i > j {
      ShiftBackward(list, i + 1, j + 1);
    }
    list[j] := item;
  }

  // ---- the list operations of the services, over freshly read objects

  function PriorityKey<B>(items: seq<Item<B>>): (key: map<Item<B>, real>)
    reads items
    ensures forall x | x in items :: x in key && key[x] == x.priority as real
  {
    map x | x in items :: x.priority as real
  }

  ghost predicate InOrder<B>(items: seq<Item<B>>)
    reads items
  {
    forall i, j :: 0 <= i < j < |items| ==> items[i].priority <= items[j].priority
  }

  /** sort.Slice by ascending priority. */
  method SortByPriority<B>(items: seq<Item<B>>) returns (sorted: seq<Item<B>>)
    requires NoDup(items)
    ensures NoDup(sorted) && |sorted| == |items| && (forall x :: x in sorted <==> x in items)
    ensures InOrder(sorted)
  {
    var key := PriorityKey(items);
    sorted := SortSlice(items, key);
    forall i, j | 0 <= i < j < |sorted| ensures sorted[i].priority <= sorted[j].priority {
      assert sorted[i] in items && sorted[j] in items;
      assert key[sorted[i]] <= key[sorted[j]];
    }
  }

  ghost function Values<B>(items: seq<Item<B>>): (r: seq<Record<B>>)
    reads items
    ensures |r| == |items|
    ensures forall k | 0 <= k < |items| :: r[k] == items[k].Value()
  {
    seq(|items|, k requires 0 <= k < |items| reads items => items[k].Value())
  }

  ghost predicate Within<T>(s: seq<T>, t: seq<T>) {
    forall x | x in s :: x in t
  }

  ghost predicate Rearranges<B>(s: seq<Record<B>>, t: seq<Record<B>>) {
    DistinctIds(s) && |s| == |t| && Within(s, t) && Within(t, s)
  }

  /** Moves the item at oldPriority to newPriority and returns the slice between the two positions.
      The full list afterwards is Reordered(was, ..), and what is returned is its slice. */
  method Reorganize<B>(list: array<Item<B>>, oldPriority: int, newPriority: int) returns (altered: seq<Item<B>>)
    requires DistinctIds(Values(list[..]))
    requires 1 <= oldPriority <= list.Length
    modifies list, list[..]
    ensures var was, i, j := old(Values(list[..])), oldPriority - 1, Clamp(newPriority, list.Length) - 1;
            Values(list[..]) == Reordered(was, i, j) && Values(altered) == Slice(was, i, j)
    ensures DistinctIds(Values(altered))
  {
    hide Reordered, Values, DistinctIds, NoDup;
    ghost var items, was := list[..], Values(list[..]);
    DistinctObjects(items);
    var p := newPriority;
    if newPriority < 1 || newPriority > list.Length {
      p := list.Length;
    }
    var i, j := oldPriority - 1, p - 1;
    MoveSlot(list, i, j);
    ReorderedBySlots(items, was, list[..], i, j);
    altered := list[Low(i, j)..High(i, j)];
    assert altered == list[..][Low(i, j)..High(i, j)];
    assert j == Clamp(newPriority, list.Length) - 1;
  }

  lemma DistinctObjects<B>(items: seq<Item<B>>)
    requires DistinctIds(Values(items))
    ensures NoDup(items)
  {
    assert forall i, j | 0 <= i < j < |items| :: Values(items)[i].id != Values(items)[j].id;
  }

  lemma ReorderedBySlots<B>(items: seq<Item<B>>, was: seq<Record<B>>, now: seq<Item<B>>, i: nat, j: nat)
    requires |items| == |was| == |now| && i < |was| && j < |was| && DistinctIds(was)
    requires forall k | 0 <= k < |was| ::
               items[k].id == was[k].id && items[k].group == was[k].group && items[k].body == was[k].body
    requires forall k: nat | k < |was| :: now[k] == items[Source(i, j, k)]
    requires forall k | Low(i, j) <= k < High(i, j) :: now[k].priority == k + 1
    requires forall k | 0 <= k < |was| && !(Low(i, j) <= k < High(i, j)) :: items[k].priority == was[k].priority
    ensures Values(now) == Reordered(was, i, j)
    ensures DistinctIds(Values(now)[Low(i, j)..High(i, j)])
    ensures Values(now[Low(i, j)..High(i, j)]) == Values(now)[Low(i, j)..High(i, j)]
  {
    forall k: nat | k < |was| ensures Values(now)[k] == Renumbered(was, i, j, k) {
    }
    BySlots(was, Values(now), i, j);
    ShiftKeepsIds(was, i, j);
  }

  /** Appends the new rule to the sorted list and shifts it to the priority it asks for. */
  method AddNew<B>(newItem: Item<B>, items: seq<Item<B>>) returns (altered: seq<Item<B>>, ghost sorted: seq<Record<B>>)
    requires DistinctIds(Values(items + [newItem]))
    modifies items, newItem
    ensures |sorted| == |items| && Rearranges(sorted, old(Values(items))) && Ascending(sorted)
    ensures DistinctIds(Values(altered))
    ensures var full := sorted + [old(newItem.Value())];
            Values(altered) == Slice(full, |full| - 1, Clamp(old(newItem.priority), |full|) - 1)
  {
    assert Values(items + [newItem]) == Values(items) + [newItem.Value()];
    AllButLastDistinct(Values(items), newItem.Value());
    var ordered;
    ordered, sorted := Sorted(items);
    RearrangeThenAppend(sorted, Values(items), newItem.Value());
    var list := PlaceLast(newItem, ordered);
    altered := Reorganize(list, list.Length, newItem.priority);
  }

  method Sorted<B>(items: seq<Item<B>>) returns (ordered: seq<Item<B>>, ghost sorted: seq<Record<B>>)
    requires DistinctIds(Values(items))
    ensures sorted == Values(ordered) && DistinctIds(sorted)
    ensures |ordered| == |items| && (forall k | 0 <= k < |ordered| :: ordered[k] in items) &&
        forall x | x in items :: x in ordered
    ensures Rearranges(sorted, Values(items)) && Ascending(sorted)
  {
    ordered := SortByPriority(items);
    sorted := Values(ordered);
    SortRearranges(items, ordered);
    assert forall k | 0 <= k < |ordered| :: ordered[k] in ordered;
  }

  method PlaceAll<B>(ordered: seq<Item<B>>) returns (list: array<Item<B>>)
    ensures fresh(list) && list[..] == ordered
    ensures forall k | 0 <= k < list.Length :: list[k] in ordered
  {
    list := new Item<B>[|ordered|](i requires 0 <= i < |ordered| => ordered[i]);
    assert list[..] == ordered;
  }

  method PlaceLast<B>(newItem: Item<B>, ordered: seq<Item<B>>) returns (list: array<Item<B>>)
    ensures fresh(list) && Values(list[..]) == Values(ordered) + [newItem.Value()]
    ensures forall k | 0 <= k < list.Length :: list[k] in ordered || list[k] == newItem
  {
    list := new Item<B>[|ordered| + 1](i requires 0 <= i <= |ordered| => if i < |ordered| then ordered[i] else newItem);
    assert list[..] == ordered + [newItem];
  }

  /** The list with the new version of a rule in the place of the old one. */
  function Overwrite<B>(s: seq<Record<B>>, rec: Record<B>): (r: seq<Record<B>>)
    ensures |r| == if s == [] then 1 else |s|
  {
    if s == [] then [rec] else seq(|s|, k requires 0 <= k < |s| => if s[k].id == rec.id then rec else s[k])
  }

  /** Puts the new version of a rule in the place of the old one and shifts it from `priority` to the
      priority it asks for. */
  method UpdateByPriority<B>(newItem: Item<B>, items: seq<Item<B>>, priority: int)
    returns (altered: seq<Item<B>>, ghost sorted: seq<Record<B>>)
    requires DistinctIds(Values(items)) && newItem !in items
    requires 1 <= priority <= if items == [] then 1 else |items|
    modifies items, newItem
    ensures |sorted| == |items| && Rearranges(sorted, old(Values(items))) && Ascending(sorted)
    ensures DistinctIds(Values(altered))
    ensures var full := Overwrite(sorted, old(newItem.Value()));
            Values(altered) == Slice(full, priority - 1, Clamp(old(newItem.priority), |full|) - 1)
  {
    hide Reordered, Slice, Overwrite, Ascending, Rearranges, Values;
    var ordered;
    ordered, sorted := Sorted(items);
    var list := PlaceNewVersion(newItem, ordered);
    altered := Reorganize(list, priority, newItem.priority);
  }

  method PlaceNewVersion<B>(newItem: Item<B>, ordered: seq<Item<B>>) returns (list: array<Item<B>>)
    requires DistinctIds(Values(ordered))
    ensures fresh(list) && Values(list[..]) == Overwrite(Values(ordered), newItem.Value())
    ensures DistinctIds(Values(list[..]))
    ensures forall k | 0 <= k < list.Length :: list[k] in ordered || list[k] == newItem
  {
    if |ordered| > 0 {
      list := new Item<B>[|ordered|](i requires 0 <= i < |ordered| => ordered[i]);
      var at := 0;
      while at < list.Length && list[at].id != newItem.id
        invariant 0 <= at <= list.Length
        invariant forall k | 0 <= k < at :: list[k].id != newItem.id
      {
        at := at + 1;
      }
      if at < list.Length {
        list[at] := newItem;
      }
    } else {
      list := new Item<B>[1](_ => newItem);
    }
  }

  /** Shifts the rule at oldPriority; the list itself is not edited. */
  method UpdatePriorities<B>(items: seq<Item<B>>, oldPriority: int, newPriority: int)
    returns (altered: seq<Item<B>>, ghost sorted: seq<Record<B>>)
    requires DistinctIds(Values(items))
    requires 1 <= oldPriority <= |items|
    modifies items
    ensures |sorted| == |items| && Rearranges(sorted, old(Values(items))) && Ascending(sorted)
    ensures DistinctIds(Values(altered))
    ensures Values(altered) == Slice(sorted, oldPriority - 1, Clamp(newPriority, |sorted|) - 1)
  {
    hide Reordered, Slice, Ascending, Rearranges, Values;
    var ordered;
    ordered, sorted := Sorted(items);
    var list := PlaceAll(ordered);
    altered := Reorganize(list, oldPriority, newPriority);
  }

  lemma AllButLastDistinct<B>(s: seq<Record<B>>, x: Record<B>)
    requires DistinctIds(s + [x])
    ensures DistinctIds(s)
  {
    forall i, j | 0 <= i < j < |s| ensures s[i].id != s[j].id {
      assert (s + [x])[i].id != (s + [x])[j].id;
    }
  }

  lemma RearrangeThenAppend<B>(s: seq<Record<B>>, t: seq<Record<B>>, x: Record<B>)
    requires Rearranges(s, t) && DistinctIds(t + [x])
    ensures DistinctIds(s + [x])
  {
    forall i | 0 <= i < |s| ensures s[i].id != x.id {
      assert s[i] in t;
      var j :| 0 <= j < |t| && t[j] == s[i];
      assert (t + [x])[j].id != (t + [x])[|t|].id;
    }
  }

  lemma SortRearranges<B>(items: seq<Item<B>>, ordered: seq<Item<B>>)
    requires DistinctIds(Values(items))
    requires NoDup(ordered) && |ordered| == |items| && (forall x | x in ordered :: x in items) &&
        forall x | x in items :: x in ordered
    requires InOrder(ordered)
    ensures Rearranges(Values(ordered), Values(items)) && Ascending(Values(ordered))
  {
    var s, t := Values(ordered), Values(items);
    forall i, j | 0 <= i < j < |s| ensures s[i].id != s[j].id {
      assert ordered[i] in items && ordered[j] in items;
      var a :| 0 <= a < |items| && items[a] == ordered[i];
      var b :| 0 <= b < |items| && items[b] == ordered[j];
      assert t[a].id != t[b].id || a == b;
    }
    forall r | r in s ensures r in t {
      var i :| 0 <= i < |s| && s[i] == r;
      assert ordered[i] in items;
      var a :| 0 <= a < |items| && items[a] == ordered[i];
      assert t[a] == r;
    }
    forall r | r in t ensures r in s {
      var a :| 0 <= a < |t| && t[a] == r;
      assert items[a] in ordered;
      var i :| 0 <= i < |ordered| && ordered[i] == items[a];
      assert s[i] == r;
    }
  }

  // ---- packing: renumbering what is left after a delete

  /** The records a renumbering of `kept` to 1..n changes, in order. */
  function Repacked<B>(kept: seq<Record<B>>): (r: seq<Record<B>>)
  {
    if kept == [] then []
    else
      var n := |kept| - 1;
      if kept[n].priority != n + 1 then Repacked(kept[..n]) + [kept[n].(priority := n + 1)] else Repacked(kept[..n])
  }

  /** The rules a pack renumbers: those of the group other than the deleted one. */
  predicate Survives<B>(r: Record<B>, deletedId: string, group: string) {
    r.id != deletedId && r.group == group
  }

  /** `kept` lists the surviving records, each once. */
  ghost predicate KeepsSurvivors<B>(kept: seq<Record<B>>, all: seq<Record<B>>, deletedId: string, group: string) {
    && DistinctIds(kept)
    && (forall r | r in kept :: r in all && Survives(r, deletedId, group))
    && (forall r | r in all && Survives(r, deletedId, group) :: r in kept)
  }

  lemma KeepNext<B>(kept: seq<Record<B>>, sorted: seq<Record<B>>, n: nat, deletedId: string, group: string)
    requires n < |sorted| && DistinctIds(sorted) && Ascending(sorted)
    requires Ascending(kept) && KeepsSurvivors(kept, sorted[..n], deletedId, group)
    ensures var now := if Survives(sorted[n], deletedId, group) then kept + [sorted[n]] else kept;
            Ascending(now) && KeepsSurvivors(now, sorted[..n + 1], deletedId, group)
  {
    assert sorted[..n + 1] == sorted[..n] + [sorted[n]];
    forall k | 0 <= k < |kept| ensures kept[k].priority <= sorted[n].priority && kept[k].id != sorted[n].id {
      assert kept[k] in sorted[..n];
    }
  }

  lemma SurvivorsOf<B>(sorted: seq<Record<B>>, all: seq<Record<B>>, deletedId: string, group: string)
    requires Rearranges(sorted, all)
    ensures forall kept :: KeepsSurvivors(kept, sorted, deletedId, group) ==>
        KeepsSurvivors(kept, all, deletedId, group)
  {
  }

  lemma KeepNone<B>(deletedId: string, group: string)
    ensures var none: seq<Record<B>> := [];
            Ascending(none) && KeepsSurvivors(none, [], deletedId, group) && Repacked(none) == []
  {
  }

  lemma RepackNext<B>(kept: seq<Record<B>>, r: Record<B>)
    ensures Repacked(kept + [r]) ==
            if r.priority != |kept| + 1 then Repacked(kept) + [r.(priority := |kept| + 1)] else Repacked(kept)
  {
    var now := kept + [r];
    assert now != [] && now[|now| - 1] == r && now[..|now| - 1] == kept;
  }

  /** Gives one survivor its number and notes whether that changed it. */
  method Assign<B>(item: Item<B>, priority: int, altered: seq<Item<B>>) returns (now: seq<Item<B>>)
    requires item !in altered
    modifies item`priority
    ensures item.priority == priority
    ensures Values(now) == if old(item.priority) == priority then old(Values(altered))
                           else old(Values(altered)) + [old(item.Value()).(priority := priority)]
    ensures forall k | 0 <= k < |now| :: now[k] in altered || now[k] == item
  {
    var oldPriority := item.priority;
    item.priority := priority;
    now := altered;
    assert Values(now) == old(Values(altered));
    if item.priority != oldPriority {
      now := altered + [item];
      assert Values(now) == old(Values(altered)) + [item.Value()];
    }
  }

  /** Walks the rules in priority order, gives the survivors 1, 2, .. and returns those whose priority
      changed. Nothing else is touched. */
  method Pack<B>(items: seq<Item<B>>, deletedId: string, group: string)
    returns (altered: seq<Item<B>>, ghost kept: seq<Record<B>>)
    requires DistinctIds(Values(items))
    modifies items
    ensures Ascending(kept) && KeepsSurvivors(kept, old(Values(items)), deletedId, group)
    ensures Values(altered) == Repacked(kept)
    ensures forall x | x in items && !Survives(old(x.Value()), deletedId, group) :: x.priority == old(x.priority)
  {
    var ordered;
    ghost var sorted;
    ordered, sorted := Sorted(items);
    SurvivorsOf(sorted, Values(items), deletedId, group);
    altered, kept := PackOrdered(ordered, deletedId, group);
  }

  method PackOrdered<B>(ordered: seq<Item<B>>, deletedId: string, group: string)
    returns (altered: seq<Item<B>>, ghost kept: seq<Record<B>>)
    requires DistinctIds(Values(ordered)) && Ascending(Values(ordered))
    modifies ordered
    ensures Ascending(kept) && KeepsSurvivors(kept, old(Values(ordered)), deletedId, group)
    ensures Values(altered) == Repacked(kept)
    ensures forall k | 0 <= k < |ordered| && !Survives(old(ordered[k].Value()), deletedId, group) ::
              ordered[k].priority == old(ordered[k].priority)
  {
    hide Ascending, KeepsSurvivors, DistinctIds, Repacked, Rearranges;
    ghost var sorted := Values(ordered);
    DistinctObjects(ordered);
    KeepNone<B>(deletedId, group);
    altered, kept := [], [];
    var priority := 1;
    for n := 0 to |ordered|
      invariant priority == |kept| + 1
      invariant Ascending(kept) && KeepsSurvivors(kept, sorted[..n], deletedId, group)
      invariant forall k | 0 <= k < |altered| :: altered[k] in ordered[..n]
      invariant Values(altered) == Repacked(kept)
      invariant forall k | n <= k < |ordered| :: ordered[k].priority == sorted[k].priority
      invariant forall k | 0 <= k < n &&
          !Survives(sorted[k], deletedId, group) :: ordered[k].priority == sorted[k].priority
    {
      var item := ordered[n];
      KeepNext(kept, sorted, n, deletedId, group);
      if item.id != deletedId && item.group == group {
        altered := Assign(item, priority, altered);
        priority := priority + 1;
        RepackNext(kept, sorted[n]);
        kept := kept + [sorted[n]];
      }
    }
    assert sorted[..|ordered|] == sorted;
  }
}
