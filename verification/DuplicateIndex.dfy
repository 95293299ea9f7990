/** The index a bulk import of firmware rules keeps in place of a full scan: rules by name, by rule key and by
    MAC address. Whatever is filed under the same identifier again is compacted away, in place; for the index
    by rule key the result of that compaction is dropped. */
module DuplicateIndex {
  import opened Basics

  datatype FirmwareRule<R> = FirmwareRule(id: string, applicationType: string, name: string, rule: R)

  type Db<R> = map<string, FirmwareRule<R>>

  type Index<R> = map<string, seq<FirmwareRule<R>>>

  /** The rules library: equality of rules, the key of a rule (its sorted free arguments), the fixed MAC
      address of a single-condition MAC rule ("" for any other), and the checks of one rule on its own. */
  datatype Library<!R> = Library(
    same: (R, R) -> bool, mapKey: R -> string, estb: R -> string, valid: FirmwareRule<R> -> bool)

  /** Equality is symmetric and equal rules have equal keys. */
  ghost predicate Lawful<R(!new)>(lib: Library<R>) {
    forall a, b :: lib.same(a, b) ==> lib.same(b, a) && lib.mapKey(a) == lib.mapKey(b) && lib.estb(a) == lib.estb(b)
  }

  /** The table, and the index by name, by rule key, and by MAC address. */
  datatype Import<R> = Import(db: Db<R>, names: Index<R>, rules: Index<R>, estbs: Index<R>)

  function Bucket<R>(index: Index<R>, key: string): seq<FirmwareRule<R>> {
    if key in index then index[key] else []
  }

  // ---- compaction

  /** The entries with another key. */
  function Without<R>(list: seq<FirmwareRule<R>>, id: string): (r: seq<FirmwareRule<R>>)
    ensures |r| <= |list|
  {
    if list == [] then []
    else
      var n := |list| - 1;
      if list[n].id != id then Without(list[..n], id) + [list[n]] else Without(list[..n], id)
  }

  /** The whole slice after a compaction in place: the compacted entries, then what was there before. */
  function CompactedInPlace<R>(list: seq<FirmwareRule<R>>, id: string): (r: seq<FirmwareRule<R>>)
    ensures |r| == |list|
  {
    Without(list, id) + list[|Without(list, id)|..]
  }

  lemma {:induction false} WithoutHolds<R>(list: seq<FirmwareRule<R>>, id: string, x: FirmwareRule<R>)
    ensures x in Without(list, id) <==> x in list && x.id != id
  {
    if list != [] {
      var n := |list| - 1;
      WithoutHolds(list[..n], id, x);
      assert list == list[..n] + [list[n]];
    }
  }

  /** A compaction whose result is dropped loses no entry with another key and brings in none. */
  lemma CompactedHolds<R>(list: seq<FirmwareRule<R>>, id: string, x: FirmwareRule<R>)
    ensures x in list && x.id != id ==> x in CompactedInPlace(list, id)
    ensures x in CompactedInPlace(list, id) ==> x in list
  {
    WithoutHolds(list, id, x);
  }

  /** The slice when the first n entries have been looked at. */
  function Compacting<R>(list: seq<FirmwareRule<R>>, n: nat, id: string): (r: seq<FirmwareRule<R>>)
    requires n <= |list|
    ensures |r| == |list|
  {
    Without(list[..n], id) + list[|Without(list[..n], id)|..]
  }

  lemma WithoutNext<R>(list: seq<FirmwareRule<R>>, n: nat, id: string)
    requires n < |list|
    ensures Without(list[..n + 1], id) == if list[n].id != id then Without(list[..n], id) + [list[n]]
        else Without(list[..n], id)
  {
    assert list[..n + 1][..n] == list[..n];
  }

  lemma CompactingNext<R>(list: seq<FirmwareRule<R>>, n: nat, id: string)
    requires n < |list|
    ensures var index := |Without(list[..n], id)|;
            && index <= n && Compacting(list, n, id)[n] == list[n]
            && Compacting(list, n + 1, id) ==
               (if list[n].id != id then Compacting(list, n, id)[index := list[n]] else Compacting(list, n, id))
            && |Without(list[..n + 1], id)| == if list[n].id != id then index + 1 else index
  {
    hide Without;
    WithoutNext(list, n, id);
    var front := Without(list[..n], id);
    assert (front + list[|front|..])[|front| := list[n]] == (front + [list[n]]) + list[|front| + 1..];
  }

  lemma CompactingEnds<R>(list: seq<FirmwareRule<R>>, id: string)
    ensures Compacting(list, 0, id) == list && Without(list[..0], id) == []
    ensures Compacting(list, |list|, id) == CompactedInPlace(list, id) && list[..|list|] == list
    ensures |Without(list, id)| <= |list| && CompactedInPlace(list, id)[..|Without(list, id)|] == Without(list, id)
  {
    assert list[..|list|] == list && list[..0] == [];
  }

  /** Shifts the entries with another key to the front of the slice and returns how many there are. */
  method FindAndDelete<R>(list: seq<FirmwareRule<R>>, id: string) returns (slice: seq<FirmwareRule<R>>, index: nat)
    ensures slice == CompactedInPlace(list, id)
    ensures index <= |slice| && slice[..index] == Without(list, id)
  {
    hide Without, Compacting, CompactedInPlace;
    slice, index := list, 0;
    CompactingEnds(list, id);
    for n := 0 to |list|
      invariant index == |Without(list[..n], id)| <= n
      invariant slice == Compacting(list, n, id)
    {
      CompactingNext(list, n, id);
      var iter := slice[n];
      if iter.id != id {
        slice := slice[index := iter];
        index := index + 1;
      }
    }
  }

  // ---- the index

  predicate Other<R>(item: FirmwareRule<R>, entity: FirmwareRule<R>) {
    item.id != entity.id && item.applicationType == entity.applicationType
  }

  /** The entries the check compares rules with. */
  function RulesToCompare<R>(s: Import<R>, lib: Library<R>, rule: R): seq<FirmwareRule<R>> {
    if lib.estb(rule) != "" && lib.estb(rule) in s.estbs then s.estbs[lib.estb(rule)]
        else Bucket(s.rules, lib.mapKey(rule))
  }

  ghost predicate NameTaken<R>(s: Import<R>, entity: FirmwareRule<R>) {
    exists x | x in Bucket(s.names, entity.name) :: Other(x, entity)
  }

  ghost predicate RuleTaken<R>(s: Import<R>, lib: Library<R>, entity: FirmwareRule<R>) {
    exists x | x in RulesToCompare(s, lib, entity.rule) :: Other(x, entity) && lib.same(x.rule, entity.rule)
  }

  ghost predicate Duplicate<R>(s: Import<R>, lib: Library<R>, entity: FirmwareRule<R>) {
    NameTaken(s, entity) || RuleTaken(s, lib, entity)
  }

  /** The simple check the index replaces: a scan of the whole table. */
  ghost predicate ScanFinds<R>(db: Db<R>, lib: Library<R>, entity: FirmwareRule<R>) {
    exists k | k in db :: Clash(db[k], entity, lib)
  }

  predicate Clash<R>(existing: FirmwareRule<R>, entity: FirmwareRule<R>, lib: Library<R>) {
    Other(existing, entity) && (entity.name == existing.name || lib.same(entity.rule, existing.rule))
  }

  /** The scan, as single imports do it. */
  method ValidateAgainstAll<R(==)>(db: Db<R>, lib: Library<R>, entity: FirmwareRule<R>) returns (found: bool)
    ensures found <==> ScanFinds(db, lib, entity)
  {
    found := AnyValue(db, (existing: FirmwareRule<R>) => Clash(existing, entity, lib));
  }

  /** The rule is filed in the index under its name and under its key. */
  function Indexed<R>(s: Import<R>, lib: Library<R>, e: FirmwareRule<R>): Import<R> {
    var key, estb := lib.mapKey(e.rule), lib.estb(e.rule);
    var names := s.names[e.name := Without(Bucket(s.names, e.name), e.id) + [e]];
    if estb != "" then s.(names := names, estbs := s.estbs[estb := Without(Bucket(s.estbs, estb), e.id) + [e]])
    else s.(names := names, rules := s.rules[key := CompactedInPlace(Bucket(s.rules, key), e.id) + [e]])
  }

  ghost predicate SameIndex<R>(s: Import<R>, t: Import<R>) {
    s.names == t.names && s.rules == t.rules && s.estbs == t.estbs
  }

  // ---- shelves: the three indexes seen as one

  datatype Shelf = ByName(name: string) | ByMac(mac: string) | ByKey(key: string)

  /** A rule belongs on a shelf. */
  predicate On<R>(lib: Library<R>, shelf: Shelf, x: FirmwareRule<R>) {
    match shelf
    case ByName(name) => x.name == name
    case ByMac(mac) => mac != "" && lib.estb(x.rule) == mac
    case ByKey(key) => lib.estb(x.rule) == "" && lib.mapKey(x.rule) == key
  }

  function Entries<R>(s: Import<R>, shelf: Shelf): seq<FirmwareRule<R>> {
    match shelf
    case ByName(name) => Bucket(s.names, name)
    case ByMac(mac) => Bucket(s.estbs, mac)
    case ByKey(key) => Bucket(s.rules, key)
  }

  function RuleShelf<R>(lib: Library<R>, rule: R): Shelf {
    if lib.estb(rule) != "" then ByMac(lib.estb(rule)) else ByKey(lib.mapKey(rule))
  }

  lemma EntriesNext<R>(s: Import<R>, lib: Library<R>, e: FirmwareRule<R>, shelf: Shelf)
    ensures Entries(Indexed(s, lib, e), shelf) ==
            if !On(lib, shelf, e) then Entries(s, shelf)
            else if shelf.ByKey? then CompactedInPlace(Entries(s, shelf), e.id) + [e]
            else Without(Entries(s, shelf), e.id) + [e]
  {
    hide Without, CompactedInPlace;
  }

  // ---- the index as a record of what was filed

  /** The index after filing these rules one after the other. */
  function IndexOf<R>(lib: Library<R>, hist: seq<FirmwareRule<R>>): Import<R> {
    if hist == [] then Import(map[], map[], map[], map[])
    else Indexed(IndexOf(lib, hist[..|hist| - 1]), lib, hist[|hist| - 1])
  }

  lemma IndexNext<R>(lib: Library<R>, hist: seq<FirmwareRule<R>>, e: FirmwareRule<R>)
    ensures IndexOf(lib, hist + [e]) == Indexed(IndexOf(lib, hist), lib, e)
  {
    var now := hist + [e];
    assert now[|now| - 1] == e && now[..|now| - 1] == hist;
  }

  /** Nothing filed later on the shelf has the same identifier. */
  ghost predicate Latest<R>(lib: Library<R>, hist: seq<FirmwareRule<R>>, i: nat, shelf: Shelf) {
    && i < |hist| && On(lib, shelf, hist[i])
    && forall j | i < j < |hist| :: !(On(lib, shelf, hist[j]) && hist[j].id == hist[i].id)
  }

  ghost predicate IsLatest<R>(lib: Library<R>, hist: seq<FirmwareRule<R>>, shelf: Shelf, x: FirmwareRule<R>) {
    exists i: nat :: Latest(lib, hist, i, shelf) && hist[i] == x
  }

  lemma IsLatestNext<R>(lib: Library<R>, front: seq<FirmwareRule<R>>, e: FirmwareRule<R>, shelf: Shelf,
      x: FirmwareRule<R>)
    ensures IsLatest(lib, front + [e], shelf, x) <==>
            if On(lib, shelf, e) then x == e || (x.id != e.id && IsLatest(lib, front, shelf, x))
            else IsLatest(lib, front, shelf, x)
  {
    var hist, n := front + [e], |front|;
    assert forall j | 0 <= j < n :: hist[j] == front[j];
    if On(lib, shelf, e) {
      assert Latest(lib, hist, n, shelf) && hist[n] == e;
    }
    if i: nat :| Latest(lib, front, i, shelf) && front[i] == x {
      assert (On(lib, shelf, e) && e.id == x.id) || (Latest(lib, hist, i, shelf) && hist[i] == x);
    }
    if i: nat :| Latest(lib, hist, i, shelf) && hist[i] == x {
      if i < n {
        assert front[i] == hist[i] && Latest(lib, front, i, shelf);
        assert hist[n] == e;
      }
    }
  }

  /** A shelf holds nothing but rules that were filed on it. */
  lemma {:induction false} ShelfHoldsFiled<R>(lib: Library<R>, hist: seq<FirmwareRule<R>>, shelf: Shelf,
      x: FirmwareRule<R>)
    requires x in Entries(IndexOf(lib, hist), shelf)
    ensures x in hist && On(lib, shelf, x)
  {
    if hist != [] {
      var front, e := hist[..|hist| - 1], hist[|hist| - 1];
      assert hist == front + [e];
      hide Without, CompactedInPlace, Entries, Indexed;
      var before := Entries(IndexOf(lib, front), shelf);
      EntriesNext(IndexOf(lib, front), lib, e, shelf);
      WithoutHolds(before, e.id, x);
      CompactedHolds(before, e.id, x);
      if x in before {
        ShelfHoldsFiled(lib, front, shelf, x);
      }
    }
  }

  /** The indexes by name and by MAC address hold exactly the latest version of each identifier. */
  lemma {:induction false} ShelfIsLatest<R>(lib: Library<R>, hist: seq<FirmwareRule<R>>, shelf: Shelf,
      x: FirmwareRule<R>)
    requires !shelf.ByKey?
    ensures x in Entries(IndexOf(lib, hist), shelf) <==> IsLatest(lib, hist, shelf, x)
  {
    if hist != [] {
      var front, e := hist[..|hist| - 1], hist[|hist| - 1];
      assert hist == front + [e];
      hide Without, CompactedInPlace, Entries, Indexed, IsLatest;
      EntriesNext(IndexOf(lib, front), lib, e, shelf);
      WithoutHolds(Entries(IndexOf(lib, front), shelf), e.id, x);
      IsLatestNext(lib, front, e, shelf, x);
      ShelfIsLatest(lib, front, shelf, x);
    }
  }

  /** No index loses the latest version of an identifier, not even the one whose compaction is dropped. */
  lemma {:induction false} LatestIsOnShelf<R>(lib: Library<R>, hist: seq<FirmwareRule<R>>, shelf: Shelf,
      x: FirmwareRule<R>)
    requires IsLatest(lib, hist, shelf, x)
    ensures x in Entries(IndexOf(lib, hist), shelf)
  {
    if hist != [] {
      var front, e := hist[..|hist| - 1], hist[|hist| - 1];
      assert hist == front + [e];
      hide Without, CompactedInPlace, Entries, Indexed, IsLatest;
      var before := Entries(IndexOf(lib, front), shelf);
      EntriesNext(IndexOf(lib, front), lib, e, shelf);
      WithoutHolds(before, e.id, x);
      CompactedHolds(before, e.id, x);
      IsLatestNext(lib, front, e, shelf, x);
      if IsLatest(lib, front, shelf, x) {
        LatestIsOnShelf(lib, front, shelf, x);
      }
    }
  }

  /** Every rule filed on a shelf has a latest version there. */
  lemma LatestVersion<R>(lib: Library<R>, hist: seq<FirmwareRule<R>>, i: nat, shelf: Shelf) returns (k: nat)
    requires i < |hist| && On(lib, shelf, hist[i])
    ensures i <= k && Latest(lib, hist, k, shelf) && hist[k].id == hist[i].id
    decreases |hist| - i
  {
    if j: nat :| i < j < |hist| && On(lib, shelf, hist[j]) && hist[j].id == hist[i].id {
      k := LatestVersion(lib, hist, j, shelf);
    } else {
      k := i;
    }
  }

  /** An entry that is gone was pushed out by a later one with the same identifier on the same shelf. */
  lemma GoneHasSuccessor<R>(lib: Library<R>, hist: seq<FirmwareRule<R>>, i: nat, shelf: Shelf)
    requires i < |hist| && On(lib, shelf, hist[i]) && hist[i] !in Entries(IndexOf(lib, hist), shelf)
    ensures exists j | i < j < |hist| :: On(lib, shelf, hist[j]) && hist[j].id == hist[i].id
  {
    if Latest(lib, hist, i, shelf) {
      LatestIsOnShelf(lib, hist, shelf, hist[i]);
    }
  }

  /** When the compaction's result is dropped, an entry with the identifier that is filed again survives
      exactly when it stands in the tail that the compaction does not write to. */
  lemma CompactedKeeps<R>(list: seq<FirmwareRule<R>>, id: string, x: FirmwareRule<R>)
    requires x.id == id
    ensures x in CompactedInPlace(list, id) <==> x in list[|Without(list, id)|..]
  {
    WithoutHolds(list, id, x);
  }

  // ---- when a dropped compaction loses an entry

  /** What was filed on a shelf, in order. */
  function Shelved<R>(lib: Library<R>, hist: seq<FirmwareRule<R>>, shelf: Shelf): (r: seq<FirmwareRule<R>>)
    ensures forall x | x in r :: x in hist && On(lib, shelf, x)
  {
    if hist == [] then []
    else
      var front, e := hist[..|hist| - 1], hist[|hist| - 1];
      if On(lib, shelf, e) then Shelved(lib, front, shelf) + [e] else Shelved(lib, front, shelf)
  }

  /** No identifier was filed twice on the shelf. */
  ghost predicate OnceEach<R>(lib: Library<R>, hist: seq<FirmwareRule<R>>, shelf: Shelf) {
    forall i, j | 0 <= i < j < |hist| && On(lib, shelf, hist[i]) && On(lib, shelf, hist[j]) :: hist[i].id != hist[j].id
  }

  lemma OnceEachNext<R>(lib: Library<R>, front: seq<FirmwareRule<R>>, e: FirmwareRule<R>, shelf: Shelf)
    requires OnceEach(lib, front + [e], shelf)
    ensures OnceEach(lib, front, shelf)
    ensures On(lib, shelf, e) ==> forall x | x in Shelved(lib, front, shelf) :: x.id != e.id
  {
    var hist := front + [e];
    assert forall i | 0 <= i < |front| :: hist[i] == front[i];
    assert hist[|front|] == e;
  }

  /** As long as no identifier repeats, a shelf holds all that was filed there. */
  lemma {:induction false} ShelfIsShelved<R>(lib: Library<R>, hist: seq<FirmwareRule<R>>, shelf: Shelf)
    requires OnceEach(lib, hist, shelf)
    ensures Entries(IndexOf(lib, hist), shelf) == Shelved(lib, hist, shelf)
  {
    if hist != [] {
      hide Without, CompactedInPlace, Entries, Indexed, OnceEach;
      var front, e := hist[..|hist| - 1], hist[|hist| - 1];
      assert hist == front + [e];
      OnceEachNext(lib, front, e, shelf);
      ShelfIsShelved(lib, front, shelf);
      EntriesNext(IndexOf(lib, front), lib, e, shelf);
      if On(lib, shelf, e) {
        WithoutAbsent(Shelved(lib, front, shelf), e.id);
      }
    }
  }

  /** The last entry of a shelf is the last rule filed there. */
  lemma {:induction false} LastShelved<R>(lib: Library<R>, hist: seq<FirmwareRule<R>>, shelf: Shelf, i: nat)
    requires OnceEach(lib, hist, shelf) && i < |hist| && On(lib, shelf, hist[i])
    ensures var l := Shelved(lib, hist, shelf);
            && hist[i] in l
            && (l[|l| - 1] == hist[i] <==> forall m | i < m < |hist| :: !On(lib, shelf, hist[m]))
  {
    hide OnceEach, On;
    var n := |hist| - 1;
    var front, e := hist[..n], hist[n];
    var before := Shelved(lib, front, shelf);
    assert hist == front + [e];
    OnceEachNext(lib, front, e, shelf);
    assert Shelved(lib, hist, shelf) == if On(lib, shelf, e) then before + [e] else before;
    if i < n {
      LastShelved(lib, front, shelf, i);
      assert front[i] == hist[i] && hist[i] in before && forall m | 0 <= m < n :: hist[m] == front[m];
    }
  }

  lemma {:induction false} ShelvedOnce<R>(lib: Library<R>, hist: seq<FirmwareRule<R>>, shelf: Shelf, id: string)
    requires OnceEach(lib, hist, shelf)
    ensures var l := Shelved(lib, hist, shelf);
            |Without(l, id)| == if exists x | x in l :: x.id == id then |l| - 1 else |l|
  {
    hide OnceEach, On;
    if hist != [] {
      var front, e := hist[..|hist| - 1], hist[|hist| - 1];
      assert hist == front + [e];
      OnceEachNext(lib, front, e, shelf);
      ShelvedOnce(lib, front, shelf, id);
      var before := Shelved(lib, front, shelf);
      if On(lib, shelf, e) {
        var l := before + [e];
        assert l == Shelved(lib, hist, shelf) && l[..|l| - 1] == before && l[|l| - 1] == e;
        assert e in l && forall x | x in before :: x in l;
      }
    }
  }

  /** The first time an identifier is filed again in the index by rule key, its old entry is overwritten exactly
      when something else was filed there in between. */
  lemma FirstTwinOverwrites<R>(lib: Library<R>, hist: seq<FirmwareRule<R>>, shelf: Shelf, i: nat, e: FirmwareRule<R>)
    requires shelf.ByKey? && OnceEach(lib, hist, shelf)
    requires i < |hist| && On(lib, shelf, hist[i]) && On(lib, shelf, e) && e.id == hist[i].id && e != hist[i]
    ensures hist[i] !in Entries(IndexOf(lib, hist + [e]), shelf) <==>
            exists m | i < m < |hist| :: On(lib, shelf, hist[m])
  {
    hide Entries, Indexed, IndexOf, On, OnceEach, Without, CompactedInPlace;
    var l, x := Shelved(lib, hist, shelf), hist[i];
    IndexNext(lib, hist, e);
    EntriesNext(IndexOf(lib, hist), lib, e, shelf);
    ShelfIsShelved(lib, hist, shelf);
    LastShelved(lib, hist, shelf, i);
    ShelvedOnce(lib, hist, shelf, e.id);
    CompactedKeeps(l, e.id, x);
    assert l[|l| - 1..] == [l[|l| - 1]];
  }

  // ---- what the check sees

  /** An identifier belongs to one application type. */
  ghost predicate OneType<R>(hist: seq<FirmwareRule<R>>) {
    forall i, j | 0 <= i < |hist| && 0 <= j < |hist| && hist[i].id == hist[j].id ::
      hist[i].applicationType == hist[j].applicationType
  }

  ghost predicate HadName<R>(hist: seq<FirmwareRule<R>>, i: nat, e: FirmwareRule<R>) {
    i < |hist| && Other(hist[i], e) && hist[i].name == e.name
  }

  /** A name is taken exactly when some other rule of the type was ever filed under it. */
  lemma NameTakenIs<R>(lib: Library<R>, hist: seq<FirmwareRule<R>>, e: FirmwareRule<R>)
    requires OneType(hist)
    ensures NameTaken(IndexOf(lib, hist), e) <==> exists i: nat :: HadName(hist, i, e)
  {
    hide IndexOf;
    var s, shelf := IndexOf(lib, hist), ByName(e.name);
    if x :| x in Bucket(s.names, e.name) && Other(x, e) {
      assert x in Entries(s, shelf);
      ShelfHoldsFiled(lib, hist, shelf, x);
      var i: nat :| i < |hist| && hist[i] == x;
      assert HadName(hist, i, e);
    }
    if i: nat :| HadName(hist, i, e) {
      var k := LatestVersion(lib, hist, i, shelf);
      assert IsLatest(lib, hist, shelf, hist[k]);
      LatestIsOnShelf(lib, hist, shelf, hist[k]);
      assert hist[k] in Bucket(s.names, e.name) && Other(hist[k], e);
    }
  }

  ghost predicate SameRule<R>(lib: Library<R>, x: FirmwareRule<R>, e: FirmwareRule<R>) {
    Other(x, e) && lib.same(x.rule, e.rule)
  }

  /** The comparison of rules sees exactly the entries on the shelf of the rule. */
  lemma RuleTakenIs<R(!new)>(lib: Library<R>, hist: seq<FirmwareRule<R>>, e: FirmwareRule<R>)
    requires Lawful(lib)
    ensures RuleTaken(IndexOf(lib, hist), lib, e) <==>
            exists x | x in Entries(IndexOf(lib, hist), RuleShelf(lib, e.rule)) :: SameRule(lib, x, e)
  {
    hide IndexOf;
    var s := IndexOf(lib, hist);
    if x :| x in RulesToCompare(s, lib, e.rule) && Other(x, e) && lib.same(x.rule, e.rule) {
      if x in Bucket(s.rules, lib.mapKey(e.rule)) {
        assert x in Entries(s, ByKey(lib.mapKey(e.rule)));
        ShelfHoldsFiled(lib, hist, ByKey(lib.mapKey(e.rule)), x);
      }
      assert x in Entries(s, RuleShelf(lib, e.rule)) && SameRule(lib, x, e);
    }
    if x :| x in Entries(s, RuleShelf(lib, e.rule)) && SameRule(lib, x, e) {
      assert x in RulesToCompare(s, lib, e.rule);
    }
  }

  lemma EqualRulesShareShelf<R(!new)>(lib: Library<R>, a: R, b: R)
    requires Lawful(lib) && lib.same(a, b)
    ensures RuleShelf(lib, a) == RuleShelf(lib, b) && lib.same(b, a)
  {
  }

  lemma DuplicateOfIndex<R>(s: Import<R>, t: Import<R>, lib: Library<R>, e: FirmwareRule<R>)
    requires SameIndex(s, t)
    ensures (NameTaken(s, e) <==> NameTaken(t, e)) && (RuleTaken(s, lib, e) <==> RuleTaken(t, lib, e))
    ensures Duplicate(s, lib, e) <==> Duplicate(t, lib, e)
    ensures forall shelf :: Entries<R>(s, shelf) == Entries(t, shelf)
  {
  }

  // ---- the index as it is built

  /** Stored rules carry their keys, and no key is blank. */
  ghost predicate WellKeyed<R>(db: Db<R>) {
    forall k | k in db :: db[k].id == k && !Blank(k)
  }

  /** The index built from the stored rules, read in some order. */
  function Filed<R>(db: Db<R>, lib: Library<R>, order: seq<string>): Import<R>
    requires forall k | k in order :: k in db
  {
    if order == [] then Import(db, map[], map[], map[])
    else
      var s, item := Filed(db, lib, order[..|order| - 1]), db[order[|order| - 1]];
      Appended(s, lib, item)
  }

  function Appended<R>(s: Import<R>, lib: Library<R>, item: FirmwareRule<R>): Import<R> {
    var names := s.names[item.name := Bucket(s.names, item.name) + [item]];
    var estb, key := lib.estb(item.rule), lib.mapKey(item.rule);
    if estb != "" then s.(names := names, estbs := s.estbs[estb := Bucket(s.estbs, estb) + [item]])
    else s.(names := names, rules := s.rules[key := Bucket(s.rules, key) + [item]])
  }

  ghost function Versions<R>(db: Db<R>, order: seq<string>): (r: seq<FirmwareRule<R>>)
    requires forall k | k in order :: k in db
    ensures |r| == |order| && forall i | 0 <= i < |r| :: r[i] == db[order[i]]
  {
    seq(|order|, i requires 0 <= i < |order| => db[order[i]])
  }

  lemma {:induction false} WithoutAbsent<R>(list: seq<FirmwareRule<R>>, id: string)
    requires forall x | x in list :: x.id != id
    ensures Without(list, id) == list == CompactedInPlace(list, id)
  {
    if list != [] {
      WithoutAbsent(list[..|list| - 1], id);
      assert list == list[..|list| - 1] + [list[|list| - 1]];
    }
  }

  lemma AppendedIsIndexed<R>(s: Import<R>, lib: Library<R>, e: FirmwareRule<R>)
    requires forall shelf, x | x in Entries(s, shelf) :: x.id != e.id
    ensures Indexed(s, lib, e) == Appended(s, lib, e)
  {
    hide Without, CompactedInPlace;
    assert forall x | x in Entries(s, ByName(e.name)) :: x.id != e.id;
    assert forall x | x in Entries(s, ByMac(lib.estb(e.rule))) :: x.id != e.id;
    assert forall x | x in Entries(s, ByKey(lib.mapKey(e.rule))) :: x.id != e.id;
    WithoutAbsent(Bucket(s.names, e.name), e.id);
    WithoutAbsent(Bucket(s.estbs, lib.estb(e.rule)), e.id);
    WithoutAbsent(Bucket(s.rules, lib.mapKey(e.rule)), e.id);
  }

  lemma AppendedSame<R>(s: Import<R>, t: Import<R>, lib: Library<R>, e: FirmwareRule<R>)
    requires SameIndex(s, t)
    ensures SameIndex(Appended(s, lib, e), Appended(t, lib, e)) && Appended(s, lib, e).db == s.db
    ensures SameIndex(Indexed(s, lib, e), Indexed(t, lib, e))
  {
    hide Without, CompactedInPlace;
  }

  lemma FiledNext<R>(db: Db<R>, lib: Library<R>, order: seq<string>)
    requires (forall k | k in order :: k in db) && order != []
    ensures var front, item := order[..|order| - 1], db[order[|order| - 1]];
            && Filed(db, lib, order) == Appended(Filed(db, lib, front), lib, item)
            && Versions(db, order) == Versions(db, front) + [item]
  {
    hide Appended;
  }

  /** A key that has not been read yet is on no shelf. */
  lemma NotFiledYet<R>(db: Db<R>, lib: Library<R>, read: seq<string>, k: string)
    requires WellKeyed(db) && (forall j | j in read :: j in db) && k !in read
    ensures forall shelf, x | x in Entries(IndexOf(lib, Versions(db, read)), shelf) :: x.id != k
  {
    hide IndexOf, Entries;
    var hist := Versions(db, read);
    forall shelf, x | x in Entries(IndexOf(lib, hist), shelf) ensures x.id != k {
      ShelfHoldsFiled(lib, hist, shelf, x);
      var i :| 0 <= i < |hist| && hist[i] == x;
      assert x.id == read[i];
    }
  }

  /** However the table is read, the index built from it is the one that filing its rules leaves. */
  lemma {:induction false} FiledIsIndexOf<R>(db: Db<R>, lib: Library<R>, order: seq<string>)
    requires WellKeyed(db) && (forall k | k in order :: k in db) && NoDup(order)
    ensures Filed(db, lib, order).db == db && SameIndex(Filed(db, lib, order), IndexOf(lib, Versions(db, order)))
  {
    if order != [] {
      hide SameIndex, Appended, Indexed, Entries, Filed, Versions, IndexOf;
      var front, k := order[..|order| - 1], order[|order| - 1];
      assert k !in front && db[k].id == k;
      FiledIsIndexOf(db, lib, front);
      FiledNext(db, lib, order);
      IndexNext(lib, Versions(db, front), db[k]);
      NotFiledYet(db, lib, front, k);
      AppendedIsIndexed(IndexOf(lib, Versions(db, front)), lib, db[k]);
      AppendedSame(Filed(db, lib, front), IndexOf(lib, Versions(db, front)), lib, db[k]);
    } else {
      assert Versions(db, order) == [];
    }
  }
}
