/** A table of prioritised rules and the list each group of it stands for. */
module RuleTable {
  import opened Basics
  import opened PriorityOrder

  type Table<B> = map<string, Record<B>>

  /** One position of the abstract list: a rule without its priority. */
  datatype Entry<B> = Entry(id: string, body: B)

  // ---- reading a group as a list

  ghost predicate WellKeyed<B>(db: Table<B>) {
    forall id | id in db :: db[id].id == id
  }

  /** `recs` holds exactly the records of the group, each once. */
  ghost predicate Stored<B>(db: Table<B>, group: string, recs: seq<Record<B>>) {
    && DistinctIds(recs)
    && (forall r | r in recs :: r.id in db && db[r.id] == r && r.group == group)
    && (forall id | id in db && db[id].group == group :: db[id] in recs)
  }

  /** The records a list stands for: priorities 1..n in list order. */
  function Numbering<B>(group: string, list: seq<Entry<B>>): (r: seq<Record<B>>)
    ensures |r| == |list| && Numbered(r)
  {
    seq(|list|, k requires 0 <= k < |list| => Record(list[k].id, group, k + 1, list[k].body))
  }

  function Entries<B>(recs: seq<Record<B>>): (r: seq<Entry<B>>)
    ensures |r| == |recs|
  {
    seq(|recs|, k requires 0 <= k < |recs| => Entry(recs[k].id, recs[k].body))
  }

  /** The group's priorities are exactly 1..n and read in that order the group is `list`. */
  ghost predicate Listing<B>(db: Table<B>, group: string, list: seq<Entry<B>>) {
    Stored(db, group, Numbering(group, list))
  }

  ghost predicate Occupied<B>(db: Table<B>, group: string, p: int) {
    exists id | id in db :: db[id].group == group && db[id].priority == p
  }

  /** The group's priorities are exactly 1..n: said without naming the list. */
  ghost predicate Dense<B>(db: Table<B>, group: string, n: nat) {
    && (forall id | id in db && db[id].group == group :: 1 <= db[id].priority <= n)
    && (forall p | 1 <= p <= n :: Occupied(db, group, p))
    && (forall a, b | a in db && b in db && db[a].group == group && db[b].group == group &&
        db[a].priority == db[b].priority :: a == b)
  }

  lemma DenseHasListing<B>(db: Table<B>, group: string, n: nat)
    requires WellKeyed(db)
    ensures Dense(db, group, n) <==> exists list: seq<Entry<B>> | |list| == n :: Listing(db, group, list)
  {
    if Dense(db, group, n) {
      DenseListIsListing(db, group, n);
    }
    if list: seq<Entry<B>> :| |list| == n && Listing(db, group, list) {
      ListingIsDense(db, group, list);
    }
  }

  lemma ListingIsDense<B>(db: Table<B>, group: string, list: seq<Entry<B>>)
    requires WellKeyed(db) && Listing(db, group, list)
    ensures Dense(db, group, |list|)
  {
    var recs := Numbering(group, list);
    forall p | 1 <= p <= |list| ensures Occupied(db, group, p) {
      assert recs[p - 1] in recs;
    }
    forall id | id in db && db[id].group == group ensures 1 <= db[id].priority <= |list| &&
        recs[db[id].priority - 1].id == id {
      assert db[id] in recs;
    }
  }

  ghost function DenseList<B>(db: Table<B>, group: string, n: nat): (list: seq<Entry<B>>)
    requires Dense(db, group, n)
  {
    seq(n, k requires 0 <= k < n => var id := Occupant(db, group, n, k + 1); Entry(id, db[id].body))
  }

  lemma DenseListIsListing<B>(db: Table<B>, group: string, n: nat)
    requires WellKeyed(db) && Dense(db, group, n)
    ensures Listing(db, group, DenseList(db, group, n))
  {
    var recs := Numbering(group, DenseList(db, group, n));
    assert forall k | 0 <= k < n :: recs[k] == db[Occupant(db, group, n, k + 1)];
    assert forall id | id in db && db[id].group == group :: recs[db[id].priority - 1] == db[id];
  }

  ghost function Occupant<B>(db: Table<B>, group: string, n: nat, p: int): (id: string)
    requires Dense(db, group, n) && 1 <= p <= n
    ensures id in db && db[id].group == group && db[id].priority == p
  {
    assert Occupied(db, group, p);
    var id :| id in db && db[id].group == group && db[id].priority == p;
    id
  }

  function Front<T>(s: seq<T>): seq<T>
    requires s != []
  {
    s[..|s| - 1]
  }

  function Last<T>(s: seq<T>): T
    requires s != []
  {
    s[|s| - 1]
  }

  lemma NonEmptyWithin<T>(s: seq<T>, t: seq<T>)
    requires Within(s, t) && s != []
    ensures t != []
  {
    assert s[0] in t;
  }

  lemma FrontsHoldTheSame<B>(s: seq<Record<B>>, t: seq<Record<B>>)
    requires DistinctIds(s) && s != [] && t != [] && Last(s) == Last(t)
    requires Within(s, t)
    ensures Within(Front(s), Front(t))
  {
    forall r | r in Front(s) ensures r in Front(t) {
      var k :| 0 <= k < |s| - 1 && s[k] == r;
      assert s[k] in t && s[k].id != Last(s).id;
      var l :| 0 <= l < |t| && t[l] == r;
      assert Front(t)[l] == r;
    }
  }

  lemma LastsAgree<B>(s: seq<Record<B>>, t: seq<Record<B>>)
    requires s != [] && t != [] && Within(s, t) && Within(t, s)
    requires Ascending(s) && StrictlyAscending(t)
    ensures Last(s) == Last(t)
  {
    assert Last(s) in t && Last(t) in s;
    var i :| 0 <= i < |s| && s[i] == Last(t);
    var j :| 0 <= j < |t| && t[j] == Last(s);
    assert j == |t| - 1;
  }

  predicate StrictlyAscending<B>(t: seq<Record<B>>) {
    forall i, j :: 0 <= i < j < |t| ==> t[i].priority < t[j].priority
  }

  /** Two duplicate-free listings of the same records agree once both are sorted and one is strictly sorted. */
  lemma {:induction false} SortedOrderIsUnique<B>(s: seq<Record<B>>, t: seq<Record<B>>)
    requires DistinctIds(s) && DistinctIds(t) && Within(s, t) && Within(t, s)
    requires Ascending(s) && StrictlyAscending(t)
    ensures s == t
  {
    if s != [] {
      NonEmptyWithin(s, t);
    }
    if t != [] {
      NonEmptyWithin(t, s);
      LastsAgree(s, t);
      FrontsHoldTheSame(s, t);
      FrontsHoldTheSame(t, s);
      SortedOrderIsUnique(Front(s), Front(t));
      assert s == Front(s) + [Last(s)] && t == Front(t) + [Last(t)];
    }
  }

  /** However the unstable sort breaks ties, a dense group comes out in list order. */
  lemma SortedReading<B>(db: Table<B>, group: string, list: seq<Entry<B>>, sorted: seq<Record<B>>)
    requires Listing(db, group, list) && Stored(db, group, sorted) && Ascending(sorted)
    ensures sorted == Numbering(group, list)
  {
    var t := Numbering(group, list);
    assert Within(sorted, t) && Within(t, sorted);
    SortedOrderIsUnique(sorted, t);
  }

  /** A dense table determines its list. */
  lemma ListingIsUnique<B>(db: Table<B>, group: string, a: seq<Entry<B>>, b: seq<Entry<B>>)
    requires Listing(db, group, a) && Listing(db, group, b)
    ensures a == b
  {
    SortedReading(db, group, a, Numbering(group, b));
    assert Entries(Numbering(group, a)) == a && Entries(Numbering(group, b)) == b;
  }

  // ---- writing back a slice

  /** `after` is `before` with exactly these records written. */
  ghost predicate Wrote<B>(before: Table<B>, after: Table<B>, recs: seq<Record<B>>) {
    && (forall r | r in recs :: r.id in after && after[r.id] == r)
    && (forall id | id in before :: id in after)
    && (forall id | id in after && !Holds(recs, id) :: id in before && after[id] == before[id])
  }

  /** Records written one after the other; a later record of the same key wins. */
  function Written<B>(db: Table<B>, recs: seq<Record<B>>): Table<B> {
    if recs == [] then db
    else var n := |recs| - 1; Written(db, recs[..n])[recs[n].id := recs[n]]
  }

  lemma {:induction false} WrittenIsWrote<B>(db: Table<B>, recs: seq<Record<B>>)
    requires DistinctIds(recs)
    ensures Wrote(db, Written(db, recs), recs)
  {
    if recs != [] {
      WrittenIsWrote(db, Front(recs));
      assert recs == Front(recs) + [Last(recs)];
    }
  }

  /** Outside the group nothing was added, dropped or changed. */
  ghost predicate OthersKept<B>(before: Table<B>, after: Table<B>, group: string) {
    && (forall id | id in before && before[id].group != group :: id in after && after[id] == before[id])
    && (forall id | id in after && after[id].group != group :: id in before && after[id] == before[id])
  }

  lemma OtherListingsKept<B>(before: Table<B>, after: Table<B>, group: string, other: string, list: seq<Entry<B>>)
    requires OthersKept(before, after, group) && other != group && Listing(before, other, list)
    ensures Listing(after, other, list)
  {
  }

  /** What the shift needs to know about the sorted list it works on: every slot but i is a stored
      record with the right number, and the group has no other record. */
  ghost predicate ReadyToShift<B>(db: Table<B>, group: string, list: seq<Entry<B>>, full: seq<Record<B>>, i: nat) {
    && WellKeyed(db) && DistinctIds(full)
    && |full| == |list| && i < |list|
    && (forall k | 0 <= k < |full| ::
          full[k].id == list[k].id && full[k].body == list[k].body && full[k].group == group)
    && (forall k | 0 <= k < |full| && k != i ::
          full[k].priority == k + 1 && full[k].id in db && db[full[k].id] == full[k])
    && (full[i].id in db ==> db[full[i].id].group == group)
    && (forall id | id in db && db[id].group == group :: Holds(full, id))
  }

  lemma ReorderedIsMove<B>(group: string, list: seq<Entry<B>>, full: seq<Record<B>>, i: nat, j: nat)
    requires |full| == |list| && i < |list| && j < |list|
    requires forall k | 0 <= k < |full| ::
               full[k].id == list[k].id && full[k].body == list[k].body && full[k].group == group
    requires forall k | 0 <= k < |full| && k != i :: full[k].priority == k + 1
    ensures |Move(list, i, j)| == |list|
    ensures Reordered(full, i, j) == Numbering(group, Move(list, i, j))
  {
    MoveAt(list, i, j, 0);
    forall k: nat | k < |list| ensures Renumbered(full, i, j, k) == Numbering(group, Move(list, i, j))[k] {
      MoveAt(list, i, j, k);
    }
  }

  lemma SliceHolds<B>(whole: seq<Record<B>>, lo: nat, hi: nat, k: nat)
    requires DistinctIds(whole) && lo <= hi <= |whole| && k < |whole|
    ensures if lo <= k < hi then whole[k] in whole[lo..hi] else !Holds(whole[lo..hi], whole[k].id)
  {
    if lo <= k < hi {
      assert whole[lo..hi][k - lo] == whole[k];
    } else {
      assert forall m | lo <= m < hi :: whole[m].id != whole[k].id;
    }
  }

  lemma SlotIsStored<B>(db: Table<B>, after: Table<B>, group: string, list: seq<Entry<B>>, full: seq<Record<B>>,
      i: nat, j: nat, k: nat)
    requires ReadyToShift(db, group, list, full, i) && j < |list| && k < |list|
    requires Wrote(db, after, Slice(full, i, j))
    ensures var r := Reordered(full, i, j)[k]; r.id in after && after[r.id] == r && r.group == group
  {
    ShiftKeepsIds(full, i, j);
    SliceHolds(Reordered(full, i, j), Low(i, j), High(i, j), k);
  }

  /** Writing only the altered slice leaves the store exactly as writing the whole renumbered list would,
      and that store reads as the list with one element moved. */
  lemma SliceSuffices<B>(db: Table<B>, after: Table<B>, group: string, list: seq<Entry<B>>, full: seq<Record<B>>,
      i: nat, j: nat)
    requires ReadyToShift(db, group, list, full, i) && j < |list|
    requires Wrote(db, after, Slice(full, i, j))
    ensures Wrote(db, after, Reordered(full, i, j))
    ensures WellKeyed(after) && OthersKept(db, after, group)
    ensures |Move(list, i, j)| == |list| && Listing(after, group, Move(list, i, j))
  {
    var whole := Reordered(full, i, j);
    var slice := Slice(full, i, j);
    ReorderedIsMove(group, list, full, i, j);
    forall k: nat | k < |whole| ensures whole[k].id in after && after[whole[k].id] == whole[k] &&
        whole[k].group == group {
      SlotIsStored(db, after, group, list, full, i, j, k);
    }
    ShiftKeepsIds(full, i, j);
    forall id | Holds(slice, id) ensures Holds(whole, id) {
      var r :| r in slice && r.id == id;
      assert r in whole;
    }
    assert Wrote(db, after, whole);
  }

  lemma RearrangedIsStored<B>(db: Table<B>, group: string, s: seq<Record<B>>, t: seq<Record<B>>)
    requires Stored(db, group, t) && Rearranges(s, t)
    ensures Stored(db, group, s)
  {
  }

  lemma AppendIsReady<B>(db: Table<B>, list: seq<Entry<B>>, rec: Record<B>)
    requires WellKeyed(db) && Listing(db, rec.group, list) && rec.id !in db
    ensures ReadyToShift(db, rec.group, list + [Entry(rec.id, rec.body)], Numbering(rec.group, list) + [rec], |list|)
  {
    var sorted := Numbering(rec.group, list);
    var full := sorted + [rec];
    assert forall k | 0 <= k < |list| :: full[k] == sorted[k] && sorted[k] in sorted;
    forall id | id in db && db[id].group == rec.group ensures Holds(full, id) {
      assert db[id] in sorted;
      assert db[id] in full;
    }
  }

  lemma EditIsReady<B>(db: Table<B>, list: seq<Entry<B>>, rec: Record<B>, i: nat)
    requires WellKeyed(db) && Listing(db, rec.group, list) && i < |list| && list[i].id == rec.id
    ensures ReadyToShift(db, rec.group, list[i := Entry(rec.id, rec.body)], Numbering(rec.group, list)[i := rec], i)
  {
    var sorted := Numbering(rec.group, list);
    var full := sorted[i := rec];
    assert forall k | 0 <= k < |list| :: sorted[k] in sorted && full[k].id == sorted[k].id;
    assert DistinctIds(full);
    forall id | id in db && db[id].group == rec.group ensures Holds(full, id) {
      var k :| 0 <= k < |sorted| && sorted[k] == db[id];
      assert full[k] in full;
    }
  }

  lemma ListedAt<B>(db: Table<B>, group: string, list: seq<Entry<B>>, id: string)
    requires WellKeyed(db) && Listing(db, group, list) && id in db && db[id].group == group
    ensures 1 <= db[id].priority <= |list| && list[db[id].priority - 1] == Entry(id, db[id].body)
  {
    assert db[id] in Numbering(group, list);
  }

  lemma NumberingIsReady<B>(db: Table<B>, group: string, list: seq<Entry<B>>, i: nat)
    requires WellKeyed(db) && Listing(db, group, list) && i < |list|
    ensures ReadyToShift(db, group, list, Numbering(group, list), i)
  {
    var sorted := Numbering(group, list);
    assert forall k | 0 <= k < |list| :: sorted[k] in sorted;
  }

  lemma AppendKeepsDistinct<B>(db: Table<B>, recs: seq<Record<B>>, rec: Record<B>)
    requires Stored(db, rec.group, recs) && rec.id !in db
    ensures DistinctIds(recs + [rec])
  {
    assert forall k | 0 <= k < |recs| :: recs[k] in recs;
  }

  lemma MoveLastIsInsert<T>(s: seq<T>, x: T, j: nat)
    requires j <= |s|
    ensures Move(s + [x], |s|, j) == InsertAt(s, j, x)
  {
    assert RemoveAt(s + [x], |s|) == s;
  }

  /** Two readings of one group have the same length. */
  lemma SameSize<B>(db: Table<B>, group: string, list: seq<Entry<B>>, recs: seq<Record<B>>)
    requires Listing(db, group, list) && Stored(db, group, recs)
    ensures |recs| == |list|
  {
    var t := Numbering(group, list);
    NoDupCounts(recs);
    NoDupCounts(t);
    forall r ensures multiset(recs)[r] == multiset(t)[r] {
      assert r in recs <==> r in t;
      assert r in recs <==> r in multiset(recs);
      assert r in t <==> r in multiset(t);
    }
    assert multiset(recs) == multiset(t);
    PermutationFacts(recs, t);
  }

  lemma AllIsDistinct<B>(db: Table<B>, recs: seq<Record<B>>)
    requires StoredInAll(db, recs)
    ensures DistinctIds(recs)
  {
  }

  lemma PackedIsDistinct<B>(kept: seq<Record<B>>, all: seq<Record<B>>, deletedId: string, group: string)
    requires KeepsSurvivors(kept, all, deletedId, group)
    ensures DistinctIds(Repacked(kept))
  {
    RepackedIsDistinct(kept);
  }

  // ---- one store operation refines one list operation

  type Lists<B> = map<string, seq<Entry<B>>>

  /** Every group's priorities are exactly 1..n, and lists gives the order they spell. */
  ghost predicate Consistent<B>(db: Table<B>, lists: Lists<B>) {
    && WellKeyed(db)
    && (forall g | g in lists :: Listing(db, g, lists[g]))
    && (forall id | id in db :: db[id].group in lists)
    && ALL !in lists
  }

  /** A new rule takes its place in the list. */
  function InsertIn<B>(list: seq<Entry<B>>, rec: Record<B>): (r: seq<Entry<B>>)
  {
    InsertAt(list, Clamp(rec.priority, |list| + 1) - 1, Entry(rec.id, rec.body))
  }

  /** The rule at index i moves to the place asked for. */
  function MoveIn<B>(list: seq<Entry<B>>, i: nat, newPriority: int): (r: seq<Entry<B>>)
    requires i < |list|
  {
    Move(list, i, Clamp(newPriority, |list|) - 1)
  }

  /** A new version of the rule at index i moves to its place in the list. */
  function ReplaceIn<B>(list: seq<Entry<B>>, i: nat, rec: Record<B>): (r: seq<Entry<B>>)
    requires i < |list|
  {
    MoveIn(list[i := Entry(rec.id, rec.body)], i, rec.priority)
  }

  /** Where that is: at the index the priority asks for, or last when there is no such place; the others keep
      their order. */
  lemma InsertTakesPlace<B>(l: seq<Entry<B>>, rec: Record<B>)
    ensures var p := if 1 <= rec.priority <= |l| + 1 then rec.priority - 1 else |l|;
            var n := InsertIn(l, rec);
            |n| == |l| + 1 && n[p] == Entry(rec.id, rec.body) && n[..p] == l[..p] && n[p + 1..] == l[p..]
  {
  }

  lemma MoveTakesPlace<B>(l: seq<Entry<B>>, i: nat, newPriority: int)
    requires i < |l|
    ensures var p := if 1 <= newPriority <= |l| then newPriority - 1 else |l| - 1;
            var n := MoveIn(l, i, newPriority);
            |n| == |l| && n[p] == l[i] && n[..p] + n[p + 1..] == l[..i] + l[i + 1..]
  {
    var p, rest := Clamp(newPriority, |l|) - 1, RemoveAt(l, i);
    var n := MoveIn(l, i, newPriority);
    assert n == rest[..p] + [l[i]] + rest[p..];
    assert n[..p] == rest[..p] && n[p + 1..] == rest[p..];
  }

  lemma ReplaceTakesPlace<B>(l: seq<Entry<B>>, i: nat, rec: Record<B>)
    requires i < |l|
    ensures var p := if 1 <= rec.priority <= |l| then rec.priority - 1 else |l| - 1;
            var n := ReplaceIn(l, i, rec);
            |n| == |l| && n[p] == Entry(rec.id, rec.body) && n[..p] + n[p + 1..] == l[..i] + l[i + 1..]
  {
    var edited := l[i := Entry(rec.id, rec.body)];
    MoveTakesPlace(edited, i, rec.priority);
    assert edited[..i] == l[..i] && edited[i + 1..] == l[i + 1..];
  }

  // ---- packing

  ghost predicate ChangedAt<B>(kept: seq<Record<B>>, k: nat, r: Record<B>) {
    k < |kept| && kept[k].priority != k + 1 && r == kept[k].(priority := k + 1)
  }

  /** A pack reports exactly the records whose priority is not their rank. */
  lemma {:induction false} RepackedIsChanged<B>(kept: seq<Record<B>>, r: Record<B>)
    ensures r in Repacked(kept) <==> exists k: nat :: ChangedAt(kept, k, r)
  {
    if kept != [] {
      var front, last := Front(kept), Last(kept);
      RepackedIsChanged(front, r);
      assert kept == front + [last];
      RepackNext(front, last);
      assert r in Repacked(kept) <==> r in Repacked(front) || ChangedAt(kept, |front|, r);
      assert forall k: nat :: ChangedAt(kept, k, r) <==>
          ChangedAt(front, k, r) || (k == |front| && ChangedAt(kept, k, r));
    }
  }

  lemma {:induction false} RepackedIsDistinct<B>(kept: seq<Record<B>>)
    requires DistinctIds(kept)
    ensures DistinctIds(Repacked(kept))
  {
    if kept != [] {
      var front := Front(kept);
      RepackedIsDistinct(front);
      forall r | r in Repacked(front) ensures r.id != Last(kept).id {
        RepackedIsChanged(front, r);
      }
    }
  }

  lemma PackedSlot<B>(db: Table<B>, after: Table<B>, kept: seq<Record<B>>, k: nat)
    requires DistinctIds(kept) && k < |kept| && kept[k].id in db && db[kept[k].id] == kept[k]
    requires Wrote(db, after, Repacked(kept))
    ensures kept[k].id in after && after[kept[k].id] == kept[k].(priority := k + 1)
  {
    var r := kept[k].(priority := k + 1);
    if kept[k].priority != k + 1 {
      assert ChangedAt(kept, k, r);
      RepackedIsChanged(kept, r);
    } else {
      forall c | c in Repacked(kept) ensures c.id != kept[k].id {
        RepackedIsChanged(kept, c);
      }
      assert !Holds(Repacked(kept), kept[k].id);
    }
  }

  lemma PackTouchesOnlyKept<B>(kept: seq<Record<B>>, id: string)
    requires Holds(Repacked(kept), id)
    ensures Holds(kept, id)
  {
    var r :| r in Repacked(kept) && r.id == id;
    RepackedIsChanged(kept, r);
    var k: nat :| ChangedAt(kept, k, r);
    assert kept[k] in kept;
  }

  /** Writing back only the records a pack reports leaves the group with exactly the survivors, numbered
      1..n in the order they were walked, whatever the priorities were before. */
  lemma PackSuffices<B>(db: Table<B>, after: Table<B>, deletedId: string, group: string, all: seq<Record<B>>,
      kept: seq<Record<B>>)
    requires WellKeyed(db) && deletedId !in db
    requires Stored(db, group, all) || StoredInAll(db, all)
    requires KeepsSurvivors(kept, all, deletedId, group)
    requires Wrote(db, after, Repacked(kept))
    ensures WellKeyed(after) && OthersKept(db, after, group) && Listing(after, group, Entries(kept))
    ensures Stored(db, group, kept)
  {
    var recs := Numbering(group, Entries(kept));
    forall k | 0 <= k < |kept| ensures recs[k] == kept[k].(priority := k + 1) && kept[k].id in after &&
        after[kept[k].id] == recs[k] {
      assert kept[k] in kept;
      PackedSlot(db, after, kept, k);
    }
    forall id | id in after && !Holds(kept, id) ensures id in db && after[id] == db[id] {
      if Holds(Repacked(kept), id) {
        PackTouchesOnlyKept(kept, id);
      }
    }
    assert Stored(db, group, kept);
    NumberedIsStored(db, after, group, kept, recs);
  }

  lemma NumberedIsStored<B>(db: Table<B>, after: Table<B>, group: string, kept: seq<Record<B>>, recs: seq<Record<B>>)
    requires WellKeyed(db) && Stored(db, group, kept) && |recs| == |kept|
    requires forall k | 0 <= k < |kept| ::
               && recs[k].id == kept[k].id && recs[k].group == group
               && recs[k].id in after && after[recs[k].id] == recs[k]
    requires forall id | id in after && !Holds(kept, id) :: id in db && after[id] == db[id]
    requires forall id | id in db :: id in after
    ensures WellKeyed(after) && OthersKept(db, after, group) && Stored(after, group, recs)
  {
    assert forall k | 0 <= k < |kept| :: kept[k] in kept;
    forall id | id in after && Holds(kept, id) ensures id in db && db[id].group == group && after[id] in recs &&
        after[id].id == id && after[id].group == group {
      var k :| 0 <= k < |kept| && kept[k].id == id;
      assert recs[k] == after[id];
    }
  }

  lemma StillConsistent<B>(before: Table<B>, after: Table<B>, lists: Lists<B>, group: string, list: seq<Entry<B>>)
    requires Consistent(before, lists) && group in lists
    requires WellKeyed(after) && OthersKept(before, after, group) && Listing(after, group, list)
    ensures Consistent(after, lists[group := list])
  {
    forall g | g in lists && g != group ensures Listing(after, g, lists[g]) {
      OtherListingsKept(before, after, group, g, lists[g]);
    }
  }

  /** Reading a group, or the whole table, key by key. */
  predicate Wanted<B>(rec: Record<B>, group: Option<string>) {
    group.None? || rec.group == group.value
  }

  ghost predicate Gathered<B>(db: Table<B>, group: Option<string>, seen: seq<string>, recs: seq<Record<B>>) {
    && DistinctIds(recs)
    && (forall r | r in recs :: r.id in seen && r.id in db && db[r.id] == r && Wanted(r, group))
    && (forall id | id in seen && id in db && Wanted(db[id], group) :: db[id] in recs)
  }

  lemma GatherNone<B>(db: Table<B>, group: Option<string>)
    ensures Gathered(db, group, [], [])
  {
  }

  lemma GatherOne<B>(db: Table<B>, group: Option<string>, ids: seq<string>, n: nat, recs: seq<Record<B>>)
    requires WellKeyed(db) && NoDup(ids) && n < |ids| && ids[n] in db && Gathered(db, group, ids[..n], recs)
    ensures Wanted(db[ids[n]], group) ==> Gathered(db, group, ids[..n + 1], recs + [db[ids[n]]])
    ensures !Wanted(db[ids[n]], group) ==> Gathered(db, group, ids[..n + 1], recs)
  {
    assert ids[..n + 1] == ids[..n] + [ids[n]];
    assert ids[n] !in ids[..n];
    assert forall k | 0 <= k < |recs| :: recs[k] in recs;
  }

  ghost predicate StoredInAll<B>(db: Table<B>, recs: seq<Record<B>>) {
    && DistinctIds(recs)
    && (forall r | r in recs :: r.id in db && db[r.id] == r)
    && (forall id | id in db :: db[id] in recs)
  }

  lemma GatheredAll<B>(db: Table<B>, group: Option<string>, ids: seq<string>, recs: seq<Record<B>>)
    requires Gathered(db, group, ids, recs) && forall id | id in db :: id in ids
    ensures if group.Some? then Stored(db, group.value, recs) else StoredInAll(db, recs)
  {
  }

  lemma StoredIsDistinct<B>(db: Table<B>, group: string, recs: seq<Record<B>>)
    requires Stored(db, group, recs)
    ensures DistinctIds(recs)
  {
  }

  lemma ConsistentFacts<B>(db: Table<B>, lists: Lists<B>)
    requires Consistent(db, lists)
    ensures WellKeyed(db) && forall id | id in db :: db[id].group in lists && db[id].group != ALL
    ensures forall g | g in lists :: Listing(db, g, lists[g])
  {
  }

  lemma RestHolds<B>(recs: seq<Record<B>>, i: nat, r: Record<B>)
    requires DistinctIds(recs) && i < |recs|
    ensures r in RemoveAt(recs, i) <==> r in recs && r.id != recs[i].id
  {
    var rest := RemoveAt(recs, i);
    if r in rest {
      var k :| 0 <= k < |rest| && rest[k] == r;
      assert r == recs[if k < i then k else k + 1];
    }
    if r in recs && r.id != recs[i].id {
      var k :| 0 <= k < |recs| && recs[k] == r;
      assert rest[if k < i then k else k - 1] == r;
    }
  }

  lemma RestIsDistinct<B>(recs: seq<Record<B>>, i: nat)
    requires DistinctIds(recs) && i < |recs|
    ensures DistinctIds(RemoveAt(recs, i))
  {
  }

  lemma RestIsStored<B>(db: Table<B>, group: string, recs: seq<Record<B>>, i: nat)
    requires WellKeyed(db) && Stored(db, group, recs) && i < |recs|
    ensures Stored(db - {recs[i].id}, group, RemoveAt(recs, i))
  {
    hide RemoveAt;
    RestIsDistinct(recs, i);
    var rest := db - {recs[i].id};
    forall r | r in RemoveAt(recs, i) ensures r.id in rest && rest[r.id] == r && r.group == group {
      RestHolds(recs, i, r);
    }
    forall id | id in rest && rest[id].group == group ensures rest[id] in RemoveAt(recs, i) {
      RestHolds(recs, i, db[id]);
    }
  }

  lemma StoredTwice<B>(db: Table<B>, group: string, s: seq<Record<B>>, t: seq<Record<B>>)
    requires Stored(db, group, s) && Stored(db, group, t)
    ensures Within(s, t) && Within(t, s)
  {
  }

  lemma RemovedReading<B>(db: Table<B>, group: string, list: seq<Entry<B>>, id: string, kept: seq<Record<B>>)
    requires WellKeyed(db) && Listing(db, group, list) && id in db && db[id].group == group
    requires Stored(db - {id}, group, kept) && Ascending(kept)
    ensures var i := db[id].priority - 1;
            0 <= i < |list| && list[i].id == id && Entries(kept) == RemoveAt(list, i)
  {
    hide Stored, Within;
    ListedAt(db, group, list, id);
    var recs, i := Numbering(group, list), db[id].priority - 1;
    var rest := RemoveAt(recs, i);
    RestIsStored(db, group, recs, i);
    StoredTwice(db - {id}, group, kept, rest);
    StoredIsDistinct(db - {id}, group, kept);
    StoredIsDistinct(db - {id}, group, rest);
    SortedOrderIsUnique(kept, rest);
    assert Entries(rest) == RemoveAt(list, i);
  }

  lemma PackRefines<B>(before: Table<B>, after: Table<B>, lists: Lists<B>, id: string, kept: seq<Record<B>>)
    requires Consistent(before, lists) && id in before
    requires Stored(before - {id}, before[id].group, kept) && Ascending(kept)
    requires WellKeyed(after) && OthersKept(before - {id}, after, before[id].group)
    requires Listing(after, before[id].group, Entries(kept))
    ensures var g, i := before[id].group, before[id].priority - 1;
            && 0 <= i < |lists[g]| && lists[g][i].id == id
            && Consistent(after, lists[g := RemoveAt(lists[g], i)])
  {
    var g := before[id].group;
    RemovedReading(before, g, lists[g], id, kept);
    assert OthersKept(before, after, g);
    StillConsistent(before, after, lists, g, Entries(kept));
  }

  lemma InsertRefines<B>(before: Table<B>, after: Table<B>, lists: Lists<B>, rec: Record<B>, read: seq<Record<B>>,
      sorted: seq<Record<B>>)
    requires Consistent(before, lists) && rec.id !in before && rec.group in lists
    requires Stored(before, rec.group, read) && Rearranges(sorted, read) && Ascending(sorted)
    requires Wrote(before, after, Slice(sorted + [rec], |sorted|, Clamp(rec.priority, |sorted| + 1) - 1))
    ensures var l := lists[rec.group];
            Consistent(after, lists[rec.group := InsertIn(l, rec)])
  {
    var l, entry := lists[rec.group], Entry(rec.id, rec.body);
    var p := Clamp(rec.priority, |l| + 1) - 1;
    SortedReading(before, rec.group, l, sorted);
    AppendIsReady(before, l, rec);
    SliceSuffices(before, after, rec.group, l + [entry], sorted + [rec], |l|, p);
    MoveLastIsInsert(l, entry, p);
    StillConsistent(before, after, lists, rec.group, InsertAt(l, p, entry));
  }

  lemma OverwriteAt<B>(s: seq<Record<B>>, rec: Record<B>, i: nat)
    requires DistinctIds(s) && i < |s| && s[i].id == rec.id
    ensures Overwrite(s, rec) == s[i := rec]
  {
  }

  lemma ReplaceRefines<B>(before: Table<B>, after: Table<B>, lists: Lists<B>, rec: Record<B>, read: seq<Record<B>>,
      sorted: seq<Record<B>>)
    requires Consistent(before, lists) && rec.id in before && before[rec.id].group == rec.group
    requires Stored(before, rec.group, read) && Rearranges(sorted, read) && Ascending(sorted)
    requires 1 <= before[rec.id].priority <= |sorted|
    requires var full := Overwrite(sorted, rec);
             Wrote(before, after, Slice(full, before[rec.id].priority - 1, Clamp(rec.priority, |full|) - 1))
    ensures var l, i := lists[rec.group], before[rec.id].priority - 1;
            && i < |l| && l[i].id == rec.id
            && Consistent(after, lists[rec.group := ReplaceIn(l, i, rec)])
  {
    hide Consistent, Listing, Stored, Slice, Move, Wrote, Overwrite, ReadyToShift, Ascending;
    ConsistentFacts(before, lists);
    ListedAt(before, rec.group, lists[rec.group], rec.id);
    var l, i := lists[rec.group], before[rec.id].priority - 1;
    var edited, p := l[i := Entry(rec.id, rec.body)], Clamp(rec.priority, |l|) - 1;
    RearrangedIsStored(before, rec.group, sorted, read);
    SortedReading(before, rec.group, l, sorted);
    OverwriteAt(sorted, rec, i);
    EditIsReady(before, l, rec, i);
    SliceSuffices(before, after, rec.group, edited, sorted[i := rec], i, p);
    StillConsistent(before, after, lists, rec.group, Move(edited, i, p));
  }

  lemma OverwriteNothing<B>(db: Table<B>, rec: Record<B>, s: seq<Record<B>>)
    requires Stored(db, rec.group, s) && s != []
    requires rec.id in db ==> db[rec.id].group != rec.group
    ensures Overwrite(s, rec) == s
  {
    assert forall k | 0 <= k < |s| :: s[k] in s;
  }

  lemma AbsentRefines<B>(before: Table<B>, after: Table<B>, lists: Lists<B>, rec: Record<B>, read: seq<Record<B>>,
      sorted: seq<Record<B>>)
    requires Consistent(before, lists) && rec.group in lists && lists[rec.group] != []
    requires rec.id in before ==> before[rec.id].group != rec.group
    requires Stored(before, rec.group, read) && Rearranges(sorted, read) && Ascending(sorted)
    requires |sorted| == |lists[rec.group]|
    requires var full := Overwrite(sorted, rec);
             Wrote(before, after, Slice(full, |sorted| - 1, Clamp(rec.priority, |full|) - 1))
    ensures var l := lists[rec.group];
            Consistent(after, lists[rec.group := MoveIn(l, |l| - 1, rec.priority)])
  {
    hide Slice, Wrote, Move, Stored, Overwrite, Consistent;
    RearrangedIsStored(before, rec.group, sorted, read);
    OverwriteNothing(before, rec, sorted);
    ShiftRefines(before, after, lists, rec.group, read, sorted, |sorted| - 1, Clamp(rec.priority, |sorted|) - 1);
  }

  lemma ShiftRefines<B>(before: Table<B>, after: Table<B>, lists: Lists<B>, group: string, read: seq<Record<B>>,
      sorted: seq<Record<B>>, i: nat, j: nat)
    requires Consistent(before, lists) && group in lists
    requires Stored(before, group, read) && Rearranges(sorted, read) && Ascending(sorted)
    requires i < |sorted| && j < |sorted|
    requires Wrote(before, after, Slice(sorted, i, j))
    ensures |sorted| == |lists[group]| && Consistent(after, lists[group := Move(lists[group], i, j)])
  {
    var l := lists[group];
    SortedReading(before, group, l, sorted);
    NumberingIsReady(before, group, l, i);
    SliceSuffices(before, after, group, l, sorted, i, j);
    StillConsistent(before, after, lists, group, Move(l, i, j));
  }

  /** The application type that matches every rule in a search. */
  const ALL := "all"

  lemma ConsistentIsDense<B>(db: Table<B>, lists: Lists<B>)
    requires Consistent(db, lists)
    ensures forall g | g in lists :: Dense(db, g, |lists[g]|)
  {
    forall g | g in lists ensures Dense(db, g, |lists[g]|) {
      ListingIsDense(db, g, lists[g]);
    }
  }

  /** A table with any priorities at all, gaps and ties included. */
  ghost predicate Usable<B>(db: Table<B>) {
    WellKeyed(db) && forall id | id in db :: db[id].group != ALL
  }

  lemma WroteIsUsable<B>(db: Table<B>, after: Table<B>, recs: seq<Record<B>>, group: string)
    requires Usable(db) && Wrote(db, after, recs) && group != ALL && forall r | r in recs :: r.group == group
    ensures Usable(after)
  {
    forall id | id in after ensures after[id].id == id && after[id].group != ALL {
      if Holds(recs, id) {
        var r :| r in recs && r.id == id;
        assert after[id] == r;
      }
    }
  }

  lemma {:induction false} WrittenIsUsable<B>(db: Table<B>, recs: seq<Record<B>>, group: string)
    requires Usable(db) && group != ALL && forall r | r in recs :: r.group == group
    ensures Usable(Written(db, recs))
  {
    if recs != [] {
      WrittenIsUsable(db, recs[..|recs| - 1], group);
    }
  }

  lemma SliceInGroup<B>(full: seq<Record<B>>, i: nat, j: nat, group: string)
    requires i < |full| && j < |full| && forall r | r in full :: r.group == group
    ensures forall r | r in Slice(full, i, j) :: r.group == group
  {
    assert forall k | 0 <= k < |full| :: full[k] in full;
  }

  /** How many rules a group has, whatever their priorities. */
  ghost function GroupSize<B>(db: Table<B>, group: string): nat {
    |Members(db, group)|
  }

  ghost function Members<B>(db: Table<B>, group: string): set<string> {
    set id | id in db && db[id].group == group
  }

  ghost function Ids<B>(recs: seq<Record<B>>): set<string> {
    set r | r in recs :: r.id
  }

  lemma {:induction false} DistinctIdsCount<B>(recs: seq<Record<B>>)
    requires DistinctIds(recs)
    ensures |Ids(recs)| == |recs|
  {
    if recs != [] {
      var front, last := Front(recs), Last(recs);
      DistinctIdsCount(front);
      assert recs == front + [last];
      assert Ids(recs) == Ids(front) + {last.id};
    }
  }

  lemma StoredSize<B>(db: Table<B>, group: string, recs: seq<Record<B>>)
    requires WellKeyed(db) && Stored(db, group, recs)
    ensures |recs| == GroupSize(db, group)
  {
    DistinctIdsCount(recs);
    forall id ensures id in Ids(recs) <==> id in Members(db, group) {
      if id in Members(db, group) {
        assert db[id] in recs;
      }
    }
    assert Ids(recs) == Members(db, group);
  }

  lemma AppendInGroup<B>(db: Table<B>, rec: Record<B>, sorted: seq<Record<B>>)
    requires Stored(db, rec.group, sorted)
    ensures forall r | r in sorted + [rec] :: r.group == rec.group
  {
  }

  lemma ConsistentIsUsable<B>(db: Table<B>, lists: Lists<B>)
    requires Consistent(db, lists)
    ensures Usable(db) && ALL !in lists
  {
  }

  class RuleStore<B> {
    var db: Table<B>
    ghost var lists: Lists<B>

    /** Any table whose groups are each numbered exactly 1..n. */
    constructor (db: Table<B>, ghost sizes: map<string, nat>)
      requires WellKeyed(db) && ALL !in sizes && forall id | id in db :: db[id].group in sizes
      requires forall g | g in sizes :: Dense(db, g, sizes[g])
      ensures Valid() && this.db == db && lists.Keys == sizes.Keys
    {
      this.db := db;
      this.lists := map g | g in sizes :: DenseList(db, g, sizes[g]);
      forall g | g in sizes ensures Listing(db, g, DenseList(db, g, sizes[g])) {
        DenseListIsListing(db, g, sizes[g]);
      }
    }

    ghost predicate Valid()
      reads this
    {
      Consistent(db, lists)
    }

    /** Reads the rules of a group (or all rules) as fresh objects. A search by application type also
        returns rules of type "all"; none exists, because no such rule passes validation. */
    method Read(group: Option<string>) returns (items: seq<Item<B>>)
      requires WellKeyed(db) && forall id | id in db :: db[id].group != ALL
      ensures if group.Some? then Stored(db, group.value, Values(items)) else StoredInAll(db, Values(items))
      ensures forall k | 0 <= k < |items| :: fresh(items[k])
    {
      hide Gathered, Stored, StoredInAll, NoDup, DistinctIds;
      items := [];
      var ids := ListKeys(db);
      GatherNone(db, group);
      assert ids[..0] == [] && Values(items) == [];
      for n := 0 to |ids|
        invariant forall k | 0 <= k < |items| :: fresh(items[k])
        invariant Gathered(db, group, ids[..n], Values(items))
      {
        var rec := db[ids[n]];
        GatherOne(db, group, ids, n, Values(items));
        if group.None? || rec.group == group.value || rec.group == ALL {
          var item := new Item(rec.id, rec.group, rec.priority, rec.body);
          ghost var before := Values(items);
          items := items + [item];
          assert Values(items) == before + [rec];
        }
      }
      assert ids[..|ids|] == ids;
      GatheredAll(db, group, ids, Values(items));
    }

    method Fetch(group: string) returns (items: seq<Item<B>>)
      requires WellKeyed(db) && forall id | id in db :: db[id].group != ALL
      ensures Stored(db, group, Values(items))
      ensures forall k | 0 <= k < |items| :: fresh(items[k])
    {
      items := Read(Some(group));
    }

    /** Writes the objects back one by one. */
    method Save(items: seq<Item<B>>)
      modifies this`db
      ensures db == Written(old(db), old(Values(items)))
      ensures DistinctIds(old(Values(items))) ==> Wrote(old(db), db, old(Values(items)))
    {
      ghost var recs := Values(items);
      for n := 0 to |items|
        invariant db == Written(old(db), recs[..n])
      {
        db := db[items[n].id := items[n].Value()];
        assert recs[..n + 1][..n] == recs[..n];
      }
      assert recs[..|items|] == recs;
      if DistinctIds(recs) {
        WrittenIsWrote(old(db), recs);
      }
    }

    /** How many rules a group has. */
    method Size(group: string) returns (n: nat)
      requires Valid() && group in lists
      ensures n == |lists[group]|
    {
      hide Listing, Stored;
      var items := Fetch(group);
      SameSize(db, group, lists[group], Values(items));
      n := |items|;
    }

    /** Stores a new rule and the rules it pushes down. From any priorities: the new rule is appended to some
        sorted listing of its group and shifted to its clamped priority. From a dense table: it is inserted at
        that place in the list of its group. */
    method Insert(rec: Record<B>) returns (ghost sorted: seq<Record<B>>)
      requires Usable(db) && rec.id !in db && rec.group != ALL
      modifies this
      ensures Usable(db) && Stored(old(db), rec.group, sorted) && Ascending(sorted)
      ensures Wrote(old(db), db, Slice(sorted + [rec], |sorted|, Clamp(rec.priority, |sorted| + 1) - 1))
      ensures old(Valid()) && rec.group in old(lists) ==>
                && Valid()
                && var l := old(lists)[rec.group];
                lists == old(lists)[rec.group := InsertIn(l, rec)]
    {
      hide Consistent, Listing, Stored, WellKeyed, DistinctIds, Ascending, Rearranges, Wrote, Slice, Move;
      hide InsertIn, ReplaceIn, Overwrite;
      ghost var was := db;
      var newItem := new Item(rec.id, rec.group, rec.priority, rec.body);
      var items := Fetch(rec.group);
      ghost var read := Values(items);
      assert Values(items + [newItem]) == read + [rec];
      AppendKeepsDistinct(db, read, rec);
      var altered;
      altered, sorted := AddNew(newItem, items);
      ghost var written := Values(altered);
      Save(altered);
      assert Wrote(was, db, written);
      RearrangedIsStored(was, rec.group, sorted, read);
      AppendInGroup(was, rec, sorted);
      SliceInGroup(sorted + [rec], |sorted|, Clamp(rec.priority, |sorted| + 1) - 1, rec.group);
      WroteIsUsable(was, db, written, rec.group);
      if old(Valid()) && rec.group in lists {
        InsertRefines(was, db, lists, rec, read, sorted);
        lists := lists[rec.group := InsertIn(lists[rec.group], rec)];
      }
    }

    /** Stores a new version of a rule: replace the element, then move it to its clamped position. */
    method Replace(rec: Record<B>)
      requires Valid() && rec.id in db && db[rec.id].group == rec.group
      modifies this
      ensures Valid()
      ensures var l, i := old(lists)[rec.group], old(db[rec.id].priority) - 1;
              && 0 <= i < |l| && l[i].id == rec.id
              && lists == old(lists)[rec.group := ReplaceIn(l, i, rec)]
    {
      hide Consistent, Listing, Stored, WellKeyed, Ascending, Rearranges, Wrote, Slice, Overwrite, ReplaceIn;
      ConsistentFacts(db, lists);
      ListedAt(db, rec.group, lists[rec.group], rec.id);
      ghost var was := db;
      ghost var read, sorted := WriteNewVersion(rec, db[rec.id].priority, lists[rec.group]);
      ReplaceRefines(was, db, lists, rec, read, sorted);
      lists := lists[rec.group := ReplaceIn(lists[rec.group], was[rec.id].priority - 1, rec)];
    }

    /** The same write when the group does not hold the rule: its last rule is shifted instead, and the
        new version is not stored. */
    method ReplaceAbsent(rec: Record<B>)
      requires Valid() && rec.group in lists && lists[rec.group] != []
      requires rec.id in db ==> db[rec.id].group != rec.group
      modifies this
      ensures Valid()
      ensures var l := old(lists)[rec.group];
              lists == old(lists)[rec.group := MoveIn(l, |l| - 1, rec.priority)]
    {
      hide Consistent, Listing, Stored, WellKeyed, Ascending, Rearranges, Wrote, Slice, Overwrite, MoveIn;
      ConsistentFacts(db, lists);
      ghost var was, l := db, lists[rec.group];
      var size := Size(rec.group);
      ghost var read, sorted := WriteNewVersion(rec, size, l);
      AbsentRefines(was, db, lists, rec, read, sorted);
      lists := lists[rec.group := MoveIn(l, |l| - 1, rec.priority)];
    }

    method WriteNewVersion(rec: Record<B>, priority: int, ghost list: seq<Entry<B>>)
      returns (ghost read: seq<Record<B>>, ghost sorted: seq<Record<B>>)
      requires WellKeyed(db) && forall id | id in db :: db[id].group != ALL
      requires Listing(db, rec.group, list) && 1 <= priority <= |list|
      modifies this`db
      ensures Stored(old(db), rec.group, read) && |sorted| == |list| && Rearranges(sorted, read) && Ascending(sorted)
      ensures var full := Overwrite(sorted, rec);
              Wrote(old(db), db, Slice(full, priority - 1, Clamp(rec.priority, |full|) - 1))
    {
      hide Listing, Stored, WellKeyed, DistinctIds, Ascending, Rearranges, Wrote, Slice, Overwrite;
      var newItem := new Item(rec.id, rec.group, rec.priority, rec.body);
      var items := Fetch(rec.group);
      read := Values(items);
      SameSize(db, rec.group, list, read);
      StoredIsDistinct(db, rec.group, read);
      var altered;
      altered, sorted := UpdateByPriority(newItem, items, priority);
      Save(altered);
    }

    /** Moves whatever rule of the group stands at oldPriority. */
    method Shift(group: string, oldPriority: int, newPriority: int)
      requires Valid() && group in lists && 1 <= oldPriority <= |lists[group]|
      modifies this
      ensures Valid()
      ensures var l := old(lists)[group];
              lists == old(lists)[group := MoveIn(l, oldPriority - 1, newPriority)]
    {
      hide Consistent, Listing, Stored, WellKeyed, DistinctIds, Ascending, Rearranges, Wrote, Slice, Move;
      hide InsertIn, ReplaceIn, Overwrite;
      ConsistentFacts(db, lists);
      ghost var was, l, i := db, lists[group], oldPriority - 1;
      var items := Fetch(group);
      ghost var read := Values(items);
      SameSize(db, group, l, read);
      StoredIsDistinct(db, group, read);
      var altered, sorted := UpdatePriorities(items, oldPriority, newPriority);
      ghost var written := Values(altered);
      Save(altered);
      assert Wrote(was, db, written);
      ShiftRefines(was, db, lists, group, read, sorted, i, Clamp(newPriority, |l|) - 1);
      lists := lists[group := MoveIn(l, i, newPriority)];
    }

    /** Deletes a rule and renumbers what is left of its group. From any priorities at all, with gaps or
        ties, the group ends up numbered 1..n in an order that respects the old priorities; from a
        dense group, the list simply loses that element. */
    method DeleteAndPack(id: string) returns (ghost kept: seq<Record<B>>)
      requires WellKeyed(db) && (forall k | k in db :: db[k].group != ALL) && id in db
      modifies this
      ensures var g := old(db[id].group);
              && Stored(old(db) - {id}, g, kept) && Ascending(kept)
              && WellKeyed(db) && Listing(db, g, Entries(kept)) && OthersKept(old(db) - {id}, db, g)
      ensures old(Valid()) ==>
                && Valid()
                && var l, i := old(lists)[old(db[id].group)], old(db[id].priority) - 1;
                && 0 <= i < |l| && l[i].id == id
                && lists == old(lists)[old(db[id].group) := RemoveAt(l, i)]
    {
      ghost var was := db;
      var group := db[id].group;
      db := db - {id};
      kept := PackTable(id, group);
      if old(Valid()) {
        PackRefines(was, db, lists, id, kept);
        lists := lists[group := RemoveAt(lists[group], was[id].priority - 1)];
      }
    }

    method PackTable(id: string, group: string) returns (ghost kept: seq<Record<B>>)
      requires WellKeyed(db) && (forall k | k in db :: db[k].group != ALL) && id !in db
      modifies this`db
      ensures Stored(old(db), group, kept) && Ascending(kept)
      ensures WellKeyed(db) && Listing(db, group, Entries(kept)) && OthersKept(old(db), db, group)
    {
      hide Stored, StoredInAll, DistinctIds, Ascending, KeepsSurvivors, Repacked, Wrote, Listing, OthersKept;
      ghost var was := db;
      var items := Read(None);
      ghost var all := Values(items);
      AllIsDistinct(db, all);
      var altered;
      altered, kept := Pack(items, id, group);
      PackedIsDistinct(kept, all, id, group);
      Save(altered);
      PackSuffices(was, db, id, group, all, kept);
    }
  }
}
