/** Bulk import of firmware rules. One request carries many rules; the index of the stored rules is built
    once, updated with every accepted rule, and is the only uniqueness check. */
module BulkImport {
  import opened Basics
  import opened DuplicateIndex

  ghost predicate Accepted<R>(s: Import<R>, lib: Library<R>, isPut: bool, appType: string, e: FirmwareRule<R>) {
    && (isPut <==> e.id in s.db)
    && e.applicationType == appType
    && !Duplicate(s, lib, e)
    && (isPut ==> !Blank(e.id) && s.db[e.id].applicationType == e.applicationType)
    && lib.valid(e)
  }

  /** A rule without an identifier is stored under a generated one, but indexed as submitted. */
  function Key(id: string, newId: string): string {
    if Blank(id) then newId else id
  }

  ghost function ImportOne<R>(s: Import<R>, lib: Library<R>, isPut: bool, appType: string, e: FirmwareRule<R>,
      newId: string): Import<R> {
    if Accepted(s, lib, isPut, appType, e) then
      var k := Key(e.id, newId);
      Indexed(s, lib, e).(db := s.db[k := e.(id := k)])
    else s
  }

  /** A submitted rule, and the identifier generated for it should it have none. */
  datatype Submitted<R> = Submitted(entity: FirmwareRule<R>, newId: string)

  ghost function ImportAll<R>(s: Import<R>, lib: Library<R>, isPut: bool, appType: string,
      batch: seq<Submitted<R>>): Import<R> {
    if batch == [] then s
    else
      var n := |batch| - 1;
      ImportOne(ImportAll(s, lib, isPut, appType, batch[..n]), lib, isPut, appType, batch[n].entity, batch[n].newId)
  }

  class BulkImporter<R(==, !new)> {
    var db: Db<R>
    var names: Index<R>
    var rules: Index<R>
    var estbs: Index<R>
    const lib: Library<R>

    constructor (db: Db<R>, lib: Library<R>)
      ensures this.db == db && this.lib == lib
    {
      this.db, this.lib := db, lib;
      names, rules, estbs := map[], map[], map[];
    }

    ghost function State(): Import<R>
      reads this
    {
      Import(db, names, rules, estbs)
    }

    /** Files every stored rule in a new index. */
    method BuildIndex()
      modifies this`names, this`rules, this`estbs
      ensures exists order | ReadsAll(order, db) :: State() == Filed(db, lib, order)
    {
      names, rules, estbs := map[], map[], map[];
      var keys := ListKeys(db);
      for n := 0 to |keys|
        invariant State() == Filed(db, lib, keys[..n])
      {
        assert keys[..n + 1][..n] == keys[..n];
        var item := db[keys[n]];
        names := names[item.name := Bucket(names, item.name) + [item]];
        var key, estb := lib.mapKey(item.rule), lib.estb(item.rule);
        if estb != "" {
          estbs := estbs[estb := Bucket(estbs, estb) + [item]];
        } else {
          rules := rules[key := Bucket(rules, key) + [item]];
        }
      }
      assert keys[..|keys|] == keys;
    }

    method DuplicateFrFound(entity: FirmwareRule<R>) returns (found: bool)
      ensures found <==> Duplicate(State(), lib, entity)
    {
      var items := Bucket(names, entity.name);
      for n := 0 to |items|
        invariant forall m | 0 <= m < n :: !Other(items[m], entity)
      {
        if items[n].id == entity.id || items[n].applicationType != entity.applicationType {
          continue;
        }
        assert items[n] in items;
        return true;
      }
      items := RulesToCompare(Import(db, names, rules, estbs), lib, entity.rule);
      for n := 0 to |items|
        invariant forall m | 0 <= m < n :: !(Other(items[m], entity) && lib.same(items[m].rule, entity.rule))
      {
        if items[n].id == entity.id || items[n].applicationType != entity.applicationType {
          continue;
        }
        if lib.same(items[n].rule, entity.rule) {
          assert items[n] in items;
          return true;
        }
      }
      return false;
    }

    /** Stores one rule of the batch, or refuses it. */
    method ImportEntity(isPut: bool, appType: string, e: FirmwareRule<R>, newId: string) returns (ok: bool)
      modifies this`db, this`names, this`rules, this`estbs
      ensures ok <==> old(Accepted(State(), lib, isPut, appType, e))
      ensures State() == old(ImportOne(State(), lib, isPut, appType, e, newId))
    {
      if (isPut && e.id !in db) || (!isPut && e.id in db) {
        return false;
      }
      if e.applicationType != appType {
        return false;
      }
      var duplicate := DuplicateFrFound(e);
      if duplicate {
        return false;
      }
      if isPut && (Blank(e.id) || db[e.id].applicationType != e.applicationType) {
        return false;
      }
      if !lib.valid(e) {
        return false;
      }
      var k := Key(e.id, newId);
      db := db[k := e.(id := k)];
      FileEntity(e);
      return true;
    }

    method FileEntity(e: FirmwareRule<R>)
      modifies this`names, this`rules, this`estbs
      ensures State() == Indexed(old(State()), lib, e)
    {
      var slice, index := FindAndDelete(Bucket(names, e.name), e.id);
      names := names[e.name := slice[..index] + [e]];
      var key, estb := lib.mapKey(e.rule), lib.estb(e.rule);
      if estb != "" {
        slice, index := FindAndDelete(Bucket(estbs, estb), e.id);
        estbs := estbs[estb := slice[..index] + [e]];
      } else {
        slice, index := FindAndDelete(Bucket(rules, key), e.id);
        rules := rules[key := slice + [e]];
      }
    }

    method PostPutEntities(isPut: bool, appType: string, batch: seq<Submitted<R>>)
      modifies this`db, this`names, this`rules, this`estbs
      ensures State() == ImportAll(old(State()), lib, isPut, appType, batch)
    {
      for n := 0 to |batch|
        invariant State() == ImportAll(old(State()), lib, isPut, appType, batch[..n])
      {
        assert batch[..n + 1][..n] == batch[..n];
        var ok := ImportEntity(isPut, appType, batch[n].entity, batch[n].newId);
      }
      assert batch[..|batch|] == batch;
    }

    /** A whole request: the index is built, then serves as the only uniqueness check. A PUT keeps names and
        rules unique; a POST does so exactly when its history has no pair that escapes the check. */
    method ServeEntities(isPut: bool, appType: string, batch: seq<Submitted<R>>)
      returns (ghost order: seq<string>, ghost hist: seq<FirmwareRule<R>>)
      requires Lawful(lib) && WellKeyed(db) && Unique(db, lib)
      requires !isPut ==> forall order | ReadsAll(order, db) :: FreshKeys(Filed(db, lib, order), lib, appType, batch)
      modifies this`db, this`names, this`rules, this`estbs
      ensures ReadsAll(order, old(db)) && hist == History(old(db), order, lib, isPut, appType, batch)
      ensures WellKeyed(db) && SameIndex(State(), IndexOf(lib, hist))
      ensures isPut ==> Unique(db, lib)
      ensures !isPut ==> && (NamesUnique(db) <==> forall i: nat, j: nat :: !NameTwins(hist, i, j))
                         && (RulesUnique(db, lib) <==> forall i: nat, j: nat :: !EscapingRules(lib, hist, i, j))
    {
      hide Lawful, WellKeyed, Unique, FreshKeys, Filed, ImportAll, IndexOf, SameIndex;
      ghost var was := db;
      BuildIndex();
      order :| ReadsAll(order, db) && State() == Filed(db, lib, order);
      hist := History(db, order, lib, isPut, appType, batch);
      PostPutEntities(isPut, appType, batch);
      assert batch[..|batch|] == batch;
      if isPut {
        PutIsTraced(was, order, lib, appType, batch, |batch|);
      } else {
        PostIsTraced(was, order, lib, appType, batch, |batch|);
        PostUniqueExactly(was, order, lib, appType, batch);
      }
    }
  }

  /** An order in which the store may hand out its keys. */
  ghost predicate ReadsAll<R>(order: seq<string>, db: Db<R>) {
    NoDup(order) && forall k :: k in order <==> k in db
  }

  // ---- the history of a request

  /** The accepted rules of a batch, as submitted. */
  ghost function Log<R>(s: Import<R>, lib: Library<R>, isPut: bool, appType: string,
      batch: seq<Submitted<R>>): seq<FirmwareRule<R>> {
    if batch == [] then []
    else
      var n := |batch| - 1;
      var log, e := Log(s, lib, isPut, appType, batch[..n]), batch[n].entity;
      if Accepted(ImportAll(s, lib, isPut, appType, batch[..n]), lib, isPut, appType, e) then log + [e] else log
  }

  /** The keys they are stored under. */
  ghost function KeyLog<R>(s: Import<R>, lib: Library<R>, isPut: bool, appType: string,
      batch: seq<Submitted<R>>): seq<string> {
    if batch == [] then []
    else
      var n := |batch| - 1;
      var log, e := KeyLog(s, lib, isPut, appType, batch[..n]), batch[n].entity;
      if Accepted(ImportAll(s, lib, isPut, appType, batch[..n]), lib, isPut, appType, e)
      then log + [Key(e.id, batch[n].newId)] else log
  }

  /** The versions a request has seen: the stored rules, then what it accepted. */
  ghost function History<R>(db: Db<R>, order: seq<string>, lib: Library<R>, isPut: bool, appType: string,
      batch: seq<Submitted<R>>): seq<FirmwareRule<R>>
    requires forall k | k in order :: k in db
  {
    Versions(db, order) + Log(Filed(db, lib, order), lib, isPut, appType, batch)
  }

  ghost function Keys<R>(db: Db<R>, order: seq<string>, lib: Library<R>, isPut: bool, appType: string,
      batch: seq<Submitted<R>>): seq<string>
    requires forall k | k in order :: k in db
  {
    order + KeyLog(Filed(db, lib, order), lib, isPut, appType, batch)
  }

  lemma HistoryNext<R>(db: Db<R>, order: seq<string>, lib: Library<R>, isPut: bool, appType: string,
      batch: seq<Submitted<R>>, n: nat)
    requires (forall k | k in order :: k in db) && n < |batch|
    ensures var s, e, newId := Filed(db, lib, order), batch[n].entity, batch[n].newId;
            var t := ImportAll(s, lib, isPut, appType, batch[..n]);
            var ok := Accepted(t, lib, isPut, appType, e);
            var hist := History(db, order, lib, isPut, appType, batch[..n]);
            var keys := Keys(db, order, lib, isPut, appType, batch[..n]);
            && ImportAll(s, lib, isPut, appType, batch[..n + 1]) == ImportOne(t, lib, isPut, appType, e, newId)
            && History(db, order, lib, isPut, appType, batch[..n + 1]) == (if ok then hist + [e] else hist)
            && Keys(db, order, lib, isPut, appType, batch[..n + 1]) == (if ok then keys + [Key(e.id, newId)] else keys)
  {
    hide Accepted, ImportOne, Filed;
    var now := batch[..n + 1];
    assert now[..n] == batch[..n] && now[n] == batch[n];
  }

  lemma HistoryStart<R>(db: Db<R>, order: seq<string>, lib: Library<R>, isPut: bool, appType: string,
      batch: seq<Submitted<R>>)
    requires forall k | k in order :: k in db
    ensures var s := Filed(db, lib, order);
            && ImportAll(s, lib, isPut, appType, batch[..0]) == s
            && History(db, order, lib, isPut, appType, batch[..0]) == Versions(db, order)
            && Keys(db, order, lib, isPut, appType, batch[..0]) == order
  {
    assert batch[..0] == [];
  }

  /** No two rules of one type have one name; no two have equal rules. */
  ghost predicate NamesUnique<R>(db: Db<R>) {
    forall a, b | a in db && b in db && a != b && db[a].applicationType == db[b].applicationType ::
      db[a].name != db[b].name
  }

  ghost predicate RulesUnique<R>(db: Db<R>, lib: Library<R>) {
    forall a, b | a in db && b in db && a != b && db[a].applicationType == db[b].applicationType ::
      !lib.same(db[a].rule, db[b].rule)
  }

  /** No two rules of one type have one name or equal rules. */
  ghost predicate Unique<R>(db: Db<R>, lib: Library<R>) {
    NamesUnique(db) && RulesUnique(db, lib)
  }

  // ---- PUT: every version carries its key

  ghost predicate LastVersion<R>(hist: seq<FirmwareRule<R>>, i: nat) {
    i < |hist| && forall j | i < j < |hist| :: hist[j].id != hist[i].id
  }

  ghost predicate StoredVersion<R>(db: Db<R>, hist: seq<FirmwareRule<R>>, k: string)
    requires k in db
  {
    exists i: nat :: LastVersion(hist, i) && hist[i] == db[k]
  }

  /** The table holds the last version of every rule. */
  ghost predicate Current<R>(db: Db<R>, hist: seq<FirmwareRule<R>>) {
    && (forall i | 0 <= i < |hist| :: hist[i].id in db && db[hist[i].id].applicationType == hist[i].applicationType)
    && (forall k | k in db :: StoredVersion(db, hist, k))
  }

  ghost predicate TracedPut<R>(t: Import<R>, lib: Library<R>, hist: seq<FirmwareRule<R>>) {
    SameIndex(t, IndexOf(lib, hist)) && WellKeyed(t.db) && Current(t.db, hist)
  }

  lemma CurrentNext<R>(db: Db<R>, hist: seq<FirmwareRule<R>>, e: FirmwareRule<R>)
    requires Current(db, hist) && WellKeyed(db) && e.id in db && db[e.id].applicationType == e.applicationType
    ensures Current(db[e.id := e], hist + [e]) && WellKeyed(db[e.id := e])
  {
    var now, n := hist + [e], |hist|;
    assert forall j | 0 <= j < n :: now[j] == hist[j];
    assert LastVersion(now, n) && now[n] == e;
    forall k | k in db && k != e.id ensures StoredVersion(db[e.id := e], now, k) {
      var i: nat :| LastVersion(hist, i) && hist[i] == db[k];
      assert LastVersion(now, i) && now[i] == db[k];
    }
  }

  lemma PutStep<R>(t: Import<R>, lib: Library<R>, hist: seq<FirmwareRule<R>>, appType: string, e: FirmwareRule<R>,
      newId: string)
    requires TracedPut(t, lib, hist)
    ensures var now := if Accepted(t, lib, true, appType, e) then hist + [e] else hist;
            TracedPut(ImportOne(t, lib, true, appType, e, newId), lib, now)
  {
    hide Current, WellKeyed, Indexed, Duplicate, IndexOf;
    if Accepted(t, lib, true, appType, e) {
      CurrentNext(t.db, hist, e);
      IndexNext(lib, hist, e);
      AppendedSame(t, IndexOf(lib, hist), lib, e);
    }
  }

  lemma StoredIsLatest<R>(db: Db<R>, lib: Library<R>, hist: seq<FirmwareRule<R>>, k: string, shelf: Shelf)
    requires Current(db, hist) && k in db && On(lib, shelf, db[k])
    ensures db[k] in Entries(IndexOf(lib, hist), shelf)
  {
    hide IndexOf;
    assert StoredVersion(db, hist, k);
    var i: nat :| LastVersion(hist, i) && hist[i] == db[k];
    assert Latest(lib, hist, i, shelf);
    LatestIsOnShelf(lib, hist, shelf, db[k]);
  }

  ghost predicate NameStored<R>(db: Db<R>, e: FirmwareRule<R>) {
    exists k | k in db :: Other(db[k], e) && db[k].name == e.name
  }

  ghost predicate RuleStored<R>(db: Db<R>, lib: Library<R>, e: FirmwareRule<R>) {
    exists k | k in db :: SameRule(lib, db[k], e)
  }

  lemma ScanIs<R(!new)>(db: Db<R>, lib: Library<R>, e: FirmwareRule<R>)
    requires Lawful(lib)
    ensures ScanFinds(db, lib, e) <==> NameStored(db, e) || RuleStored(db, lib, e)
  {
    if k :| k in db && Clash(db[k], e, lib) {
      assert db[k].name == e.name || SameRule(lib, db[k], e);
    }
    if k :| k in db && SameRule(lib, db[k], e) {
      assert Clash(db[k], e, lib);
    }
  }

  /** Version i had the name, and its rule has another name now. */
  ghost predicate GaveUpName<R>(db: Db<R>, hist: seq<FirmwareRule<R>>, i: nat, e: FirmwareRule<R>)
    requires forall j | 0 <= j < |hist| :: hist[j].id in db
  {
    HadName(hist, i, e) && db[hist[i].id].name != e.name
  }

  ghost predicate NameGivenUp<R>(db: Db<R>, hist: seq<FirmwareRule<R>>, e: FirmwareRule<R>)
    requires forall j | 0 <= j < |hist| :: hist[j].id in db
  {
    exists i: nat :: GaveUpName(db, hist, i, e)
  }

  /** In a PUT the name check refuses a rule exactly when another rule of the type has the name, or had it
      earlier in the request and gave it up. So it agrees with a scan exactly when no such name was given
      up without some other rule of the type having it now. */
  lemma PutNameCheck<R>(t: Import<R>, lib: Library<R>, hist: seq<FirmwareRule<R>>, e: FirmwareRule<R>)
    requires TracedPut(t, lib, hist)
    ensures NameTaken(t, e) <==> NameStored(t.db, e) || NameGivenUp(t.db, hist, e)
    ensures (NameTaken(t, e) <==> NameStored(t.db, e)) <==> (NameGivenUp(t.db, hist, e) ==> NameStored(t.db, e))
  {
    hide IndexOf, SameIndex;
    DuplicateOfIndex(t, IndexOf(lib, hist), lib, e);
    NameTakenIs(lib, hist, e);
    if i: nat :| HadName(hist, i, e) {
      assert GaveUpName(t.db, hist, i, e) || Other(t.db[hist[i].id], e);
    }
    if k :| k in t.db && Other(t.db[k], e) && t.db[k].name == e.name {
      assert StoredVersion(t.db, hist, k);
      var i: nat :| LastVersion(hist, i) && hist[i] == t.db[k];
      assert HadName(hist, i, e);
    }
  }

  /** Version i had an equal rule and is still on its shelf, and its rule is a different one now. */
  ghost predicate GaveUpRule<R>(t: Import<R>, lib: Library<R>, hist: seq<FirmwareRule<R>>, i: nat, e: FirmwareRule<R>)
    requires forall j | 0 <= j < |hist| :: hist[j].id in t.db
  {
    && i < |hist| && SameRule(lib, hist[i], e) && !lib.same(t.db[hist[i].id].rule, e.rule)
    && hist[i] in Entries(t, RuleShelf(lib, hist[i].rule))
  }

  /** In a PUT the comparison of rules refuses a rule exactly when another rule of the type equals it, or an
      earlier version that is still in the index does. */
  lemma PutRuleCheck<R(!new)>(t: Import<R>, lib: Library<R>, hist: seq<FirmwareRule<R>>, e: FirmwareRule<R>)
    requires Lawful(lib) && TracedPut(t, lib, hist)
    ensures RuleTaken(t, lib, e) <==> RuleStored(t.db, lib, e) || exists i: nat :: GaveUpRule(t, lib, hist, i, e)
  {
    hide IndexOf, SameIndex, Lawful, RuleShelf;
    var shelf := RuleShelf(lib, e.rule);
    DuplicateOfIndex(t, IndexOf(lib, hist), lib, e);
    RuleTakenIs(lib, hist, e);
    if x :| x in Entries(t, shelf) && SameRule(lib, x, e) {
      ShelfHoldsFiled(lib, hist, shelf, x);
      EqualRulesShareShelf(lib, x.rule, e.rule);
      var i: nat :| i < |hist| && hist[i] == x;
      assert GaveUpRule(t, lib, hist, i, e) || SameRule(lib, t.db[x.id], e);
    }
    if i: nat :| GaveUpRule(t, lib, hist, i, e) {
      EqualRulesShareShelf(lib, hist[i].rule, e.rule);
    }
    if k :| k in t.db && SameRule(lib, t.db[k], e) {
      EqualRulesShareShelf(lib, t.db[k].rule, e.rule);
      OnItsShelf(lib, t.db[k]);
      StoredIsLatest(t.db, lib, hist, k, shelf);
    }
  }

  lemma OnItsShelf<R>(lib: Library<R>, x: FirmwareRule<R>)
    ensures On(lib, RuleShelf(lib, x.rule), x)
  {
  }

  /** For rules on one MAC address, still being in the index means: not filed again on that address. */
  lemma StillOnMac<R>(t: Import<R>, lib: Library<R>, hist: seq<FirmwareRule<R>>, x: FirmwareRule<R>)
    requires TracedPut(t, lib, hist) && lib.estb(x.rule) != ""
    ensures x in Entries(t, RuleShelf(lib, x.rule)) <==> IsLatest(lib, hist, ByMac(lib.estb(x.rule)), x)
  {
    ShelfIsLatest(lib, hist, ByMac(lib.estb(x.rule)), x);
    DuplicateOfIndex(t, IndexOf(lib, hist), lib, x);
  }

  ghost predicate RuleGivenUp<R>(t: Import<R>, lib: Library<R>, hist: seq<FirmwareRule<R>>, e: FirmwareRule<R>)
    requires forall j | 0 <= j < |hist| :: hist[j].id in t.db
  {
    exists i: nat :: GaveUpRule(t, lib, hist, i, e)
  }

  /** At any point of a PUT the indexed check refuses whatever a scan would, and besides exactly what clashes
      with a name or a rule given up earlier in the request. So the two agree exactly when the scan, too,
      objects to every rule that takes up a name or rule given up before. */
  lemma PutCheckIsScan<R(!new)>(t: Import<R>, lib: Library<R>, hist: seq<FirmwareRule<R>>, e: FirmwareRule<R>)
    requires Lawful(lib) && TracedPut(t, lib, hist)
    ensures Duplicate(t, lib, e) <==>
            ScanFinds(t.db, lib, e) || NameGivenUp(t.db, hist, e) || RuleGivenUp(t, lib, hist, e)
    ensures (Duplicate(t, lib, e) <==> ScanFinds(t.db, lib, e)) <==>
            (NameGivenUp(t.db, hist, e) || RuleGivenUp(t, lib, hist, e) ==> ScanFinds(t.db, lib, e))
  {
    hide Lawful, NameTaken, RuleTaken, NameStored, RuleStored, NameGivenUp, GaveUpRule, ScanFinds;
    ScanIs(t.db, lib, e);
    PutNameCheck(t, lib, hist, e);
    PutRuleCheck(t, lib, hist, e);
  }

  lemma PutKeepsUnique<R(!new)>(t: Import<R>, lib: Library<R>, hist: seq<FirmwareRule<R>>, appType: string,
      e: FirmwareRule<R>, newId: string)
    requires Lawful(lib) && TracedPut(t, lib, hist) && Unique(t.db, lib)
    ensures Unique(ImportOne(t, lib, true, appType, e, newId).db, lib)
  {
    hide Duplicate, Indexed, SameIndex, IndexOf, ScanFinds, Unique, NameGivenUp, RuleGivenUp, Lawful, Apart;
    if Accepted(t, lib, true, appType, e) {
      if ScanFinds(t.db, lib, e) {
        PutCheckIsScan(t, lib, hist, e);
      }
      NoScanNoClash(t.db, lib, e);
      UniqueNext(t.db, lib, e.id, e);
    }
  }

  ghost predicate Apart<R>(a: FirmwareRule<R>, b: FirmwareRule<R>, lib: Library<R>) {
    a.applicationType == b.applicationType ==>
      a.name != b.name && !lib.same(a.rule, b.rule) && !lib.same(b.rule, a.rule)
  }

  lemma NoScanNoClash<R(!new)>(db: Db<R>, lib: Library<R>, e: FirmwareRule<R>)
    requires Lawful(lib) && WellKeyed(db) && !ScanFinds(db, lib, e)
    ensures forall k | k in db && k != e.id :: Apart(db[k], e, lib)
  {
    forall k | k in db && k != e.id ensures Apart(db[k], e, lib) {
      assert !Clash(db[k], e, lib);
    }
  }

  lemma UniqueNext<R>(db: Db<R>, lib: Library<R>, k: string, e: FirmwareRule<R>)
    requires Unique(db, lib) && forall a | a in db && a != k :: Apart(db[a], e, lib)
    ensures Unique(db[k := e], lib)
  {
  }

  /** At every point of a PUT batch the index is that of the history, the table holds the last versions, and
      names and rules are unique. */
  lemma {:induction false} PutIsTraced<R(!new)>(db: Db<R>, order: seq<string>, lib: Library<R>, appType: string,
      batch: seq<Submitted<R>>, n: nat)
    requires Lawful(lib) && WellKeyed(db) && Unique(db, lib) && ReadsAll(order, db) && n <= |batch|
    ensures var t := ImportAll(Filed(db, lib, order), lib, true, appType, batch[..n]);
            TracedPut(t, lib, History(db, order, lib, true, appType, batch[..n])) && Unique(t.db, lib)
  {
    hide TracedPut, Unique, ImportOne, ImportAll, Accepted, Filed, History, Lawful, WellKeyed, Keys;
    if n == 0 {
      HistoryStart(db, order, lib, true, appType, batch);
      StartsTraced(db, order, lib);
    } else {
      var m := n - 1;
      var t := ImportAll(Filed(db, lib, order), lib, true, appType, batch[..m]);
      var hist := History(db, order, lib, true, appType, batch[..m]);
      PutIsTraced(db, order, lib, appType, batch, m);
      HistoryNext(db, order, lib, true, appType, batch, m);
      PutStep(t, lib, hist, appType, batch[m].entity, batch[m].newId);
      PutKeepsUnique(t, lib, hist, appType, batch[m].entity, batch[m].newId);
    }
  }

  lemma StartsTraced<R>(db: Db<R>, order: seq<string>, lib: Library<R>)
    requires WellKeyed(db) && ReadsAll(order, db)
    ensures Filed(db, lib, order).db == db
    ensures TracedPut(Filed(db, lib, order), lib, Versions(db, order))
  {
    hide SameIndex, IndexOf, Filed;
    var hist := Versions(db, order);
    FiledIsIndexOf(db, lib, order);
    forall k | k in db ensures StoredVersion(db, hist, k) {
      var i: nat :| i < |order| && order[i] == k;
      assert LastVersion(hist, i) && hist[i] == db[k];
    }
  }

  // ---- POST: a rule without an identifier is indexed under the blank it came with

  /** Version i is stored under key i, and nothing else is stored. */
  ghost predicate Stores<R>(db: Db<R>, hist: seq<FirmwareRule<R>>, keys: seq<string>, appType: string) {
    && |keys| == |hist| && NoDup(keys) && (forall k :: k in keys <==> k in db)
    && forall i | 0 <= i < |hist| :: StoresOne(db, hist[i], keys[i], appType)
  }

  ghost predicate StoresOne<R>(db: Db<R>, x: FirmwareRule<R>, k: string, appType: string) {
    k in db && db[k] == x.(id := k) && (x.id == k || (Blank(x.id) && x.applicationType == appType))
  }

  ghost predicate TracedPost<R>(t: Import<R>, lib: Library<R>, appType: string, hist: seq<FirmwareRule<R>>,
      keys: seq<string>) {
    SameIndex(t, IndexOf(lib, hist)) && WellKeyed(t.db) && Stores(t.db, hist, keys, appType)
  }

  /** An identifier generated for a rule without one is new. */
  predicate FreshKey<R>(db: Db<R>, e: FirmwareRule<R>, newId: string) {
    Blank(e.id) ==> !Blank(newId) && newId !in db
  }

  ghost predicate FreshKeys<R>(s: Import<R>, lib: Library<R>, appType: string, batch: seq<Submitted<R>>) {
    forall n: nat | n < |batch| :: FreshKeyAt(s, lib, appType, batch, n)
  }

  ghost predicate FreshKeyAt<R>(s: Import<R>, lib: Library<R>, appType: string, batch: seq<Submitted<R>>, n: nat)
    requires n < |batch|
  {
    FreshKey(ImportAll(s, lib, false, appType, batch[..n]).db, batch[n].entity, batch[n].newId)
  }

  lemma StoresNext<R>(db: Db<R>, hist: seq<FirmwareRule<R>>, keys: seq<string>, appType: string, e: FirmwareRule<R>,
      k: string)
    requires Stores(db, hist, keys, appType) && WellKeyed(db) && k !in db && !Blank(k)
    requires e.id == k || (Blank(e.id) && e.applicationType == appType)
    ensures Stores(db[k := e.(id := k)], hist + [e], keys + [k], appType) && WellKeyed(db[k := e.(id := k)])
  {
    assert forall i | 0 <= i < |keys| :: keys[i] in keys;
  }

  lemma PostStep<R>(t: Import<R>, lib: Library<R>, appType: string, hist: seq<FirmwareRule<R>>, keys: seq<string>,
      e: FirmwareRule<R>, newId: string)
    requires TracedPost(t, lib, appType, hist, keys) && FreshKey(t.db, e, newId)
    ensures var ok, u := Accepted(t, lib, false, appType, e), ImportOne(t, lib, false, appType, e, newId);
            if ok then TracedPost(u, lib, appType, hist + [e], keys + [Key(e.id, newId)]) else u == t
  {
    hide Stores, WellKeyed, Indexed, Duplicate, IndexOf;
    if Accepted(t, lib, false, appType, e) {
      StoresNext(t.db, hist, keys, appType, e, Key(e.id, newId));
      IndexNext(lib, hist, e);
      AppendedSame(t, IndexOf(lib, hist), lib, e);
    }
  }

  /** Only rules that came without an identifier share one. */
  lemma SharedIdIsBlank<R>(db: Db<R>, hist: seq<FirmwareRule<R>>, keys: seq<string>, appType: string)
    requires Stores(db, hist, keys, appType) && WellKeyed(db)
    ensures forall i, j | 0 <= i < j < |hist| && hist[i].id == hist[j].id :: Blank(hist[i].id)
    ensures OneType(hist)
    ensures forall i | 0 <= i < |hist| && hist[i].id !in db :: Blank(hist[i].id)
  {
    forall i, j | 0 <= i < j < |hist| && hist[i].id == hist[j].id
      ensures Blank(hist[i].id) && hist[i].applicationType == hist[j].applicationType
    {
      assert StoresOne(db, hist[i], keys[i], appType) && StoresOne(db, hist[j], keys[j], appType);
    }
    forall i | 0 <= i < |hist| ensures hist[i].id !in db ==> Blank(hist[i].id) {
      assert StoresOne(db, hist[i], keys[i], appType);
    }
  }

  /** A version of the type that a scan on behalf of e would stop at. */
  predicate Clashing<R>(h: FirmwareRule<R>, e: FirmwareRule<R>, lib: Library<R>) {
    h.applicationType == e.applicationType && (e.name == h.name || lib.same(e.rule, h.rule))
  }

  /** What keeps the indexed check from seeing it: both were submitted without an identifier, under the same
      blank; or names differ and the entry is no longer on the shelf of its rule. */
  ghost predicate Hidden<R>(s: Import<R>, lib: Library<R>, h: FirmwareRule<R>, e: FirmwareRule<R>) {
    h.id == e.id || (h.name != e.name && h !in Entries(s, RuleShelf(lib, h.rule)))
  }

  ghost predicate ClashesAt<R>(hist: seq<FirmwareRule<R>>, i: nat, e: FirmwareRule<R>, lib: Library<R>) {
    i < |hist| && Clashing(hist[i], e, lib)
  }

  ghost predicate SeenAt<R>(s: Import<R>, hist: seq<FirmwareRule<R>>, i: nat, e: FirmwareRule<R>, lib: Library<R>) {
    ClashesAt(hist, i, e, lib) && !Hidden(s, lib, hist[i], e)
  }

  lemma PostScanIs<R>(db: Db<R>, lib: Library<R>, appType: string, hist: seq<FirmwareRule<R>>, keys: seq<string>,
      e: FirmwareRule<R>)
    requires Stores(db, hist, keys, appType) && WellKeyed(db) && e.id !in db
    ensures ScanFinds(db, lib, e) <==> exists i: nat :: ClashesAt(hist, i, e, lib)
  {
    if k :| k in db && Clash(db[k], e, lib) {
      var i: nat :| i < |keys| && keys[i] == k;
      assert StoresOne(db, hist[i], keys[i], appType) && ClashesAt(hist, i, e, lib);
    }
    if i: nat :| ClashesAt(hist, i, e, lib) {
      assert StoresOne(db, hist[i], keys[i], appType) && Clash(db[keys[i]], e, lib);
    }
  }

  /** The indexed check refuses a rule exactly when some version clashes and is not hidden. */
  lemma DuplicateIs<R(!new)>(lib: Library<R>, hist: seq<FirmwareRule<R>>, e: FirmwareRule<R>)
    requires Lawful(lib) && OneType(hist)
    ensures Duplicate(IndexOf(lib, hist), lib, e) <==> exists i: nat :: SeenAt(IndexOf(lib, hist), hist, i, e, lib)
  {
    hide IndexOf, Lawful, OneType, NameTaken, RuleTaken, RuleShelf, Entries;
    var s, shelf := IndexOf(lib, hist), RuleShelf(lib, e.rule);
    NameTakenIs(lib, hist, e);
    RuleTakenIs(lib, hist, e);
    if i: nat :| HadName(hist, i, e) {
      assert SeenAt(s, hist, i, e, lib);
    }
    if x :| x in Entries(s, shelf) && SameRule(lib, x, e) {
      ShelfHoldsFiled(lib, hist, shelf, x);
      EqualRulesShareShelf(lib, x.rule, e.rule);
      var i: nat :| i < |hist| && hist[i] == x;
      assert SeenAt(s, hist, i, e, lib);
    }
    if i: nat :| SeenAt(s, hist, i, e, lib) {
      if hist[i].name == e.name {
        assert HadName(hist, i, e);
      } else {
        EqualRulesShareShelf(lib, e.rule, hist[i].rule);
        assert hist[i] in Entries(s, shelf) && SameRule(lib, hist[i], e);
      }
    }
  }

  /** An entry leaves its shelf only when a later submission with the same blank lands there. */
  lemma LostToTwin<R>(lib: Library<R>, hist: seq<FirmwareRule<R>>, i: nat)
    requires i < |hist| && hist[i] !in Entries(IndexOf(lib, hist), RuleShelf(lib, hist[i].rule))
    ensures exists j | i < j < |hist| ::
              hist[j].id == hist[i].id && RuleShelf(lib, hist[j].rule) == RuleShelf(lib, hist[i].rule)
  {
    hide IndexOf, Entries;
    OnItsShelf(lib, hist[i]);
    GoneHasSuccessor(lib, hist, i, RuleShelf(lib, hist[i].rule));
    var j :| i < j < |hist| && On(lib, RuleShelf(lib, hist[i].rule), hist[j]) && hist[j].id == hist[i].id;
    assert RuleShelf(lib, hist[j].rule) == RuleShelf(lib, hist[i].rule);
  }

  /** When it is lost can be read off the submissions: when the first other submission under the same blank with the
      same rule key comes, the entry is overwritten exactly if any rule of that key was accepted in between. */
  lemma FirstTwinLoses<R>(t: Import<R>, lib: Library<R>, appType: string, hist: seq<FirmwareRule<R>>, keys: seq<string>,
      i: nat, twin: FirmwareRule<R>)
    requires TracedPost(t, lib, appType, hist, keys) && i < |hist|
    requires twin.id == hist[i].id && twin != hist[i] && lib.estb(hist[i].rule) == ""
    requires RuleShelf(lib, twin.rule) == RuleShelf(lib, hist[i].rule)
    requires forall a, b | 0 <= a < b < |hist| && hist[a].id == hist[b].id ::
               !(On(lib, RuleShelf(lib, twin.rule), hist[a]) && On(lib, RuleShelf(lib, twin.rule), hist[b]))
    ensures hist[i] !in Entries(IndexOf(lib, hist + [twin]), RuleShelf(lib, hist[i].rule)) <==>
            exists m | i < m < |hist| :: RuleShelf(lib, hist[m].rule) == RuleShelf(lib, hist[i].rule)
  {
    hide IndexOf, Entries;
    var shelf := RuleShelf(lib, hist[i].rule);
    OnItsShelf(lib, hist[i]);
    OnItsShelf(lib, twin);
    FirstTwinOverwrites(lib, hist, shelf, i, twin);
    assert forall m | 0 <= m < |hist| :: On(lib, shelf, hist[m]) <==> RuleShelf(lib, hist[m].rule) == shelf;
  }

  /** At any point of a POST: what the scan and the indexed check find for a rule with a new identifier, and
      when they agree. Whatever is hidden came without an identifier. */
  lemma PostCheckIsScan<R(!new)>(t: Import<R>, lib: Library<R>, appType: string, hist: seq<FirmwareRule<R>>,
      keys: seq<string>, e: FirmwareRule<R>)
    requires Lawful(lib) && TracedPost(t, lib, appType, hist, keys) && e.id !in t.db
    ensures ScanFinds(t.db, lib, e) <==> exists i: nat :: ClashesAt(hist, i, e, lib)
    ensures Duplicate(t, lib, e) <==> exists i: nat :: SeenAt(t, hist, i, e, lib)
    ensures forall i: nat | i < |hist| && Hidden(t, lib, hist[i], e) :: Blank(hist[i].id)
    ensures (Duplicate(t, lib, e) <==> ScanFinds(t.db, lib, e)) <==>
            ((exists i: nat :: ClashesAt(hist, i, e, lib)) ==> exists i: nat :: SeenAt(t, hist, i, e, lib))
    ensures (forall i: nat | ClashesAt(hist, i, e, lib) :: !Blank(hist[i].id)) ==>
              (Duplicate(t, lib, e) <==> ScanFinds(t.db, lib, e))
  {
    hide IndexOf, Lawful, Duplicate, ScanFinds, SameIndex, Clashing, Entries, Stores, WellKeyed, OneType;
    var s := IndexOf(lib, hist);
    SharedIdIsBlank(t.db, hist, keys, appType);
    PostScanIs(t.db, lib, appType, hist, keys, e);
    DuplicateIs(lib, hist, e);
    DuplicateOfIndex(t, s, lib, e);
    assert forall i: nat :: SeenAt(t, hist, i, e, lib) <==> SeenAt(s, hist, i, e, lib);
    forall i: nat | i < |hist| && Hidden(t, lib, hist[i], e) ensures Blank(hist[i].id) {
      if hist[i].id != e.id {
        LostToTwin(lib, hist, i);
      }
    }
    assert forall i: nat | ClashesAt(hist, i, e, lib) && !Blank(hist[i].id) :: SeenAt(t, hist, i, e, lib);
    assert forall i: nat | SeenAt(t, hist, i, e, lib) :: ClashesAt(hist, i, e, lib);
  }

  /** A version that came with its identifier can be found by its name and by its rule. */
  lemma PostCovers<R>(t: Import<R>, lib: Library<R>, appType: string, hist: seq<FirmwareRule<R>>, keys: seq<string>,
      i: nat)
    requires TracedPost(t, lib, appType, hist, keys) && i < |hist| && !Blank(hist[i].id)
    ensures hist[i] in Entries(t, ByName(hist[i].name)) && hist[i] in Entries(t, RuleShelf(lib, hist[i].rule))
  {
    hide IndexOf, Entries, Stores, WellKeyed, SameIndex;
    SharedIdIsBlank(t.db, hist, keys, appType);
    DuplicateOfIndex(t, IndexOf(lib, hist), lib, hist[i]);
    OnItsShelf(lib, hist[i]);
    if hist[i] !in Entries(IndexOf(lib, hist), ByName(hist[i].name)) {
      GoneHasSuccessor(lib, hist, i, ByName(hist[i].name));
    }
    if hist[i] !in Entries(IndexOf(lib, hist), RuleShelf(lib, hist[i].rule)) {
      GoneHasSuccessor(lib, hist, i, RuleShelf(lib, hist[i].rule));
    }
  }

  /** During a POST every index entry stands for a stored rule, filed where it belongs. */
  lemma PostHoldsStored<R>(t: Import<R>, lib: Library<R>, appType: string, hist: seq<FirmwareRule<R>>,
      keys: seq<string>, shelf: Shelf, x: FirmwareRule<R>)
    requires TracedPost(t, lib, appType, hist, keys) && x in Entries(t, shelf)
    ensures On(lib, shelf, x) && exists k | k in t.db :: t.db[k] == x.(id := k) && (x.id == k || Blank(x.id))
  {
    hide IndexOf, Entries;
    DuplicateOfIndex(t, IndexOf(lib, hist), lib, x);
    ShelfHoldsFiled(lib, hist, shelf, x);
    var i: nat :| i < |hist| && hist[i] == x;
    assert StoresOne(t.db, hist[i], keys[i], appType);
  }

  // ---- what an import stores

  /** Another identifier of the type has a version with e's name, or one with an equal rule that is still to be
      found under that rule. */
  ghost predicate VersionClashes<R>(t: Import<R>, lib: Library<R>, hist: seq<FirmwareRule<R>>, e: FirmwareRule<R>) {
    exists h | h in hist ::
      && h.id != e.id && h.applicationType == e.applicationType
      && (h.name == e.name || (lib.same(e.rule, h.rule) && h in Entries(t, RuleShelf(lib, h.rule))))
  }

  lemma DuplicateIsVersionClash<R(!new)>(t: Import<R>, lib: Library<R>, hist: seq<FirmwareRule<R>>, e: FirmwareRule<R>)
    requires Lawful(lib) && OneType(hist) && SameIndex(t, IndexOf(lib, hist))
    ensures Duplicate(t, lib, e) <==> VersionClashes(t, lib, hist, e)
  {
    hide IndexOf, Lawful, OneType, Duplicate, RuleShelf, Entries, SameIndex;
    var s := IndexOf(lib, hist);
    DuplicateIs(lib, hist, e);
    DuplicateOfIndex(t, s, lib, e);
    if h :| h in hist && h.id != e.id && h.applicationType == e.applicationType
            && (h.name == e.name || (lib.same(e.rule, h.rule) && h in Entries(t, RuleShelf(lib, h.rule))))
    {
      var i: nat :| i < |hist| && hist[i] == h;
      assert SeenAt(s, hist, i, e, lib);
    }
    if i: nat :| SeenAt(s, hist, i, e, lib) {
      assert hist[i] in hist;
    }
  }

  /** What a PUT stores: at any point of the request, a rule that is stored under its identifier, for the caller's
      type before and after, valid and without a clash. It replaces the stored version; any other rule is refused,
      and changes nothing. */
  lemma PutStores<R(!new)>(t: Import<R>, lib: Library<R>, hist: seq<FirmwareRule<R>>, appType: string,
      e: FirmwareRule<R>, newId: string)
    requires Lawful(lib) && TracedPut(t, lib, hist)
    ensures var u := ImportOne(t, lib, true, appType, e, newId);
            var stored :=
              && e.id in t.db && !Blank(e.id)
              && t.db[e.id].applicationType == appType && e.applicationType == appType
              && lib.valid(e) && !VersionClashes(t, lib, hist, e);
            && (Accepted(t, lib, true, appType, e) <==> stored)
            && (stored ==> u.db == t.db[e.id := e] && SameIndex(u, IndexOf(lib, hist + [e])))
            && (!stored ==> u == t)
  {
    hide IndexOf, Lawful, Duplicate, VersionClashes, Indexed, SameIndex, WellKeyed;
    DuplicateIsVersionClash(t, lib, hist, e);
    PutStep(t, lib, hist, appType, e, newId);
  }

  /** What a POST stores: at any point of the request, a rule under an identifier that is not stored, for the
      caller's type, valid and without a clash. It is added, under the generated identifier if it has none; any
      other rule is refused, and changes nothing. */
  lemma PostStores<R(!new)>(t: Import<R>, lib: Library<R>, appType: string, hist: seq<FirmwareRule<R>>,
      keys: seq<string>, e: FirmwareRule<R>, newId: string)
    requires Lawful(lib) && TracedPost(t, lib, appType, hist, keys) && FreshKey(t.db, e, newId)
    ensures var u := ImportOne(t, lib, false, appType, e, newId);
            var stored :=
              && e.id !in t.db && e.applicationType == appType
              && lib.valid(e) && !VersionClashes(t, lib, hist, e);
            var k := if Blank(e.id) then newId else e.id;
            && (Accepted(t, lib, false, appType, e) <==> stored)
            && (stored ==> k !in t.db && u.db == t.db[k := e.(id := k)] && SameIndex(u, IndexOf(lib, hist + [e])))
            && (!stored ==> u == t)
  {
    hide IndexOf, Lawful, Duplicate, VersionClashes, Indexed, SameIndex, WellKeyed, Stores;
    SharedIdIsBlank(t.db, hist, keys, appType);
    DuplicateIsVersionClash(t, lib, hist, e);
    PostStep(t, lib, appType, hist, keys, e, newId);
  }

  // ---- what a POST keeps unique

  /** The submissions from `from` on passed the check when they came. */
  ghost predicate Screened<R>(lib: Library<R>, hist: seq<FirmwareRule<R>>, from: nat) {
    forall j: nat | from <= j < |hist| :: PassedAt(lib, hist, j)
  }

  ghost predicate PassedAt<R>(lib: Library<R>, hist: seq<FirmwareRule<R>>, j: nat)
    requires j < |hist|
  {
    !Duplicate(IndexOf(lib, hist[..j]), lib, hist[j])
  }

  /** Two submissions without an identifier, under the same blank, that share their name. */
  predicate NameTwins<R>(hist: seq<FirmwareRule<R>>, i: nat, j: nat) {
    i < j < |hist| && Blank(hist[i].id) && hist[i].id == hist[j].id && hist[i].name == hist[j].name
  }

  /** Two rules of one type that are equal, where the first came without an identifier, and either the second
      came under the same blank or the first one's entry was gone when the second came. */
  ghost predicate EscapingRules<R>(lib: Library<R>, hist: seq<FirmwareRule<R>>, i: nat, j: nat) {
    && i < j < |hist| && Blank(hist[i].id)
    && hist[i].applicationType == hist[j].applicationType && lib.same(hist[i].rule, hist[j].rule)
    && (hist[i].id == hist[j].id || hist[i] !in Entries(IndexOf(lib, hist[..j]), RuleShelf(lib, hist[i].rule)))
  }

  ghost predicate SameNameAt<R>(hist: seq<FirmwareRule<R>>, i: nat, j: nat) {
    i < j < |hist| && hist[i].applicationType == hist[j].applicationType && hist[i].name == hist[j].name
  }

  ghost predicate SameRuleAt<R>(lib: Library<R>, hist: seq<FirmwareRule<R>>, i: nat, j: nat) {
    i < j < |hist| && hist[i].applicationType == hist[j].applicationType && lib.same(hist[i].rule, hist[j].rule)
  }

  lemma UniqueAsHistory<R(!new)>(db: Db<R>, lib: Library<R>, hist: seq<FirmwareRule<R>>, keys: seq<string>,
      appType: string)
    requires Lawful(lib) && Stores(db, hist, keys, appType)
    ensures NamesUnique(db) <==> forall i: nat, j: nat :: !SameNameAt(hist, i, j)
    ensures RulesUnique(db, lib) <==> forall i: nat, j: nat :: !SameRuleAt(lib, hist, i, j)
  {
    forall i: nat, j: nat | i < j < |hist|
      ensures StoresOne(db, hist[i], keys[i], appType) && StoresOne(db, hist[j], keys[j], appType) && keys[i] != keys[j]
    {
    }
    forall a, b | a in db && b in db && a != b && db[a].applicationType == db[b].applicationType
      ensures db[a].name == db[b].name ==> exists i: nat, j: nat :: SameNameAt(hist, i, j)
      ensures lib.same(db[a].rule, db[b].rule) ==> exists i: nat, j: nat :: SameRuleAt(lib, hist, i, j)
    {
      var i: nat :| i < |keys| && keys[i] == a;
      var j: nat :| j < |keys| && keys[j] == b;
      assert StoresOne(db, hist[i], keys[i], appType) && StoresOne(db, hist[j], keys[j], appType);
      var lo, hi := if i < j then i else j, if i < j then j else i;
      assert db[a].name == db[b].name ==> SameNameAt(hist, lo, hi);
      assert lib.same(db[a].rule, db[b].rule) ==> SameRuleAt(lib, hist, lo, hi);
    }
  }

  /** Why a submission that passed may still share its name or rule with an earlier version. */
  lemma PassedDespite<R(!new)>(lib: Library<R>, hist: seq<FirmwareRule<R>>, i: nat, j: nat)
    requires Lawful(lib) && OneType(hist) && i < j < |hist| && PassedAt(lib, hist, j)
    requires forall a, b | 0 <= a < b < |hist| && hist[a].id == hist[b].id :: Blank(hist[a].id)
    ensures SameNameAt(hist, i, j) ==> NameTwins(hist, i, j)
    ensures SameRuleAt(lib, hist, i, j) ==> EscapingRules(lib, hist, i, j)
  {
    hide IndexOf, Duplicate, Entries, RuleShelf, Lawful;
    var front := hist[..j];
    assert forall k | 0 <= k < j :: front[k] == hist[k];
    assert OneType(front);
    DuplicateIs(lib, front, hist[j]);
    assert !SeenAt(IndexOf(lib, front), front, i, hist[j], lib);
    if SameRuleAt(lib, hist, i, j) {
      EqualRulesShareShelf(lib, hist[i].rule, hist[j].rule);
      if hist[i].id != hist[j].id {
        LostToTwin(lib, front, i);
      }
    }
  }

  /** Over a POST names stay unique exactly when no two accepted submissions under one blank share a name, and
      rules stay unique exactly when no two escape the comparison. */
  lemma UniqueExactly<R(!new)>(db: Db<R>, lib: Library<R>, appType: string, hist: seq<FirmwareRule<R>>,
      keys: seq<string>, from: nat)
    requires Lawful(lib) && WellKeyed(db) && Stores(db, hist, keys, appType)
    requires from <= |hist| && Screened(lib, hist, from)
    requires forall i: nat, j: nat | j < from :: !SameNameAt(hist, i, j) && !SameRuleAt(lib, hist, i, j)
    ensures NamesUnique(db) <==> forall i: nat, j: nat :: !NameTwins(hist, i, j)
    ensures RulesUnique(db, lib) <==> forall i: nat, j: nat :: !EscapingRules(lib, hist, i, j)
  {
    hide Lawful, PassedAt;
    SharedIdIsBlank(db, hist, keys, appType);
    UniqueAsHistory(db, lib, hist, keys, appType);
    forall i: nat, j: nat
      ensures SameNameAt(hist, i, j) <==> NameTwins(hist, i, j)
      ensures SameRuleAt(lib, hist, i, j) <==> EscapingRules(lib, hist, i, j)
    {
      if i < j < |hist| && j >= from {
        PassedDespite(lib, hist, i, j);
      }
    }
  }

  /** Submissions under one blank that differ in name and rule, and in the shelf of their rule, do no harm. */
  lemma TwinsApart<R>(lib: Library<R>, hist: seq<FirmwareRule<R>>)
    requires forall i, j | 0 <= i < j < |hist| && Blank(hist[i].id) && hist[i].id == hist[j].id ::
               && hist[i].name != hist[j].name && !lib.same(hist[i].rule, hist[j].rule)
               && RuleShelf(lib, hist[i].rule) != RuleShelf(lib, hist[j].rule)
    ensures forall i: nat, j: nat :: !NameTwins(hist, i, j) && !EscapingRules(lib, hist, i, j)
  {
    hide IndexOf, Entries, RuleShelf;
    forall i: nat, j: nat ensures !EscapingRules(lib, hist, i, j) {
      if EscapingRules(lib, hist, i, j) {
        var front := hist[..j];
        assert forall k | 0 <= k < j :: front[k] == hist[k];
        LostToTwin(lib, front, i);
      }
    }
  }

  /** At every point of a POST batch the index is that of the history, each version is stored under its key,
      and every submission passed the check when it came. */
  lemma {:induction false} PostIsTraced<R(!new)>(db: Db<R>, order: seq<string>, lib: Library<R>, appType: string,
      batch: seq<Submitted<R>>, n: nat)
    requires WellKeyed(db) && ReadsAll(order, db) && n <= |batch|
    requires FreshKeys(Filed(db, lib, order), lib, appType, batch)
    ensures var t := ImportAll(Filed(db, lib, order), lib, false, appType, batch[..n]);
            var hist := History(db, order, lib, false, appType, batch[..n]);
            && TracedPost(t, lib, appType, hist, Keys(db, order, lib, false, appType, batch[..n]))
            && Screened(lib, hist, |order|) && Versions(db, order) <= hist
  {
    hide TracedPost, Screened, ImportOne, ImportAll, Accepted, Filed, History, WellKeyed, Keys, Versions, FreshKey;
    if n == 0 {
      HistoryStart(db, order, lib, false, appType, batch);
      StartsStored(db, order, lib, appType);
    } else {
      var m := n - 1;
      var t := ImportAll(Filed(db, lib, order), lib, false, appType, batch[..m]);
      var hist := History(db, order, lib, false, appType, batch[..m]);
      var keys := Keys(db, order, lib, false, appType, batch[..m]);
      assert FreshKeyAt(Filed(db, lib, order), lib, appType, batch, m);
      PostIsTraced(db, order, lib, appType, batch, m);
      HistoryNext(db, order, lib, false, appType, batch, m);
      PostStep(t, lib, appType, hist, keys, batch[m].entity, batch[m].newId);
      if Accepted(t, lib, false, appType, batch[m].entity) {
        ScreenedNext(t, lib, appType, hist, keys, batch[m].entity, |order|);
      }
    }
  }

  lemma StartsStored<R>(db: Db<R>, order: seq<string>, lib: Library<R>, appType: string)
    requires WellKeyed(db) && ReadsAll(order, db)
    ensures TracedPost(Filed(db, lib, order), lib, appType, Versions(db, order), order)
    ensures Screened(lib, Versions(db, order), |order|)
  {
    hide SameIndex, IndexOf, Filed;
    FiledIsIndexOf(db, lib, order);
  }

  lemma ScreenedNext<R>(t: Import<R>, lib: Library<R>, appType: string, hist: seq<FirmwareRule<R>>, keys: seq<string>,
      e: FirmwareRule<R>, from: nat)
    requires TracedPost(t, lib, appType, hist, keys) && Accepted(t, lib, false, appType, e) && Screened(lib, hist, from)
    ensures Screened(lib, hist + [e], from)
  {
    hide IndexOf, Duplicate, Stores, WellKeyed, SameIndex;
    var now := hist + [e];
    DuplicateOfIndex(t, IndexOf(lib, hist), lib, e);
    forall j: nat | from <= j < |now| ensures PassedAt(lib, now, j) {
      if j < |hist| {
        assert PassedAt(lib, hist, j) && now[..j] == hist[..j];
      } else {
        assert now[..j] == hist;
      }
    }
  }

  /** What a POST request keeps unique, starting from unique names and rules. */
  lemma PostUniqueExactly<R(!new)>(db: Db<R>, order: seq<string>, lib: Library<R>, appType: string,
      batch: seq<Submitted<R>>)
    requires Lawful(lib) && WellKeyed(db) && Unique(db, lib) && ReadsAll(order, db)
    requires FreshKeys(Filed(db, lib, order), lib, appType, batch)
    ensures var t := ImportAll(Filed(db, lib, order), lib, false, appType, batch);
            var hist := History(db, order, lib, false, appType, batch);
            && (NamesUnique(t.db) <==> forall i: nat, j: nat :: !NameTwins(hist, i, j))
            && (RulesUnique(t.db, lib) <==> forall i: nat, j: nat :: !EscapingRules(lib, hist, i, j))
  {
    hide Lawful, WellKeyed, Unique, FreshKeys, ImportAll, History, Keys, Screened, NamesUnique, RulesUnique;
    hide IndexOf, SameIndex, Stores, Filed;
    assert batch[..|batch|] == batch;
    PostIsTraced(db, order, lib, appType, batch, |batch|);
    var hist := History(db, order, lib, false, appType, batch);
    UniqueAtStart(db, order, lib, hist);
    UniqueExactly(ImportAll(Filed(db, lib, order), lib, false, appType, batch).db, lib, appType, hist,
      Keys(db, order, lib, false, appType, batch), |order|);
  }

  lemma UniqueAtStart<R>(db: Db<R>, order: seq<string>, lib: Library<R>, hist: seq<FirmwareRule<R>>)
    requires Unique(db, lib) && ReadsAll(order, db) && Versions(db, order) <= hist
    ensures forall i: nat, j: nat | j < |order| :: !SameNameAt(hist, i, j) && !SameRuleAt(lib, hist, i, j)
  {
    forall i: nat | i < |order| ensures hist[i] == db[order[i]] {
      assert Versions(db, order)[i] == hist[i];
    }
  }

  // ---- inputs that show the failures

  /** In a PUT batch a name that a rule gave up stays taken. */
  lemma FreedNameStaysTaken<R(!new)>(t: Import<R>, lib: Library<R>, hist: seq<FirmwareRule<R>>, appType: string,
      renamed: FirmwareRule<R>, next: FirmwareRule<R>)
    requires TracedPut(t, lib, hist) && Accepted(t, lib, true, appType, renamed)
    requires renamed.name != t.db[renamed.id].name
    requires next.name == t.db[renamed.id].name && next.id != renamed.id && next.applicationType == appType
    ensures Duplicate(ImportOne(t, lib, true, appType, renamed, ""), lib, next)
  {
    hide IndexOf, Indexed, SameIndex, NameTaken;
    var now, u := hist + [renamed], ImportOne(t, lib, true, appType, renamed, "");
    PutStep(t, lib, hist, appType, renamed, "");
    PutNameCheck(u, lib, now, next);
    assert StoredVersion(t.db, hist, renamed.id);
    var i: nat :| LastVersion(hist, i) && hist[i] == t.db[renamed.id];
    assert now[i] == hist[i] && GaveUpName(u.db, now, i, next);
  }

  /** In a PUT batch a rule that was changed into one of another key stays taken, too: the old version is still
      on its shelf. */
  lemma ChangedRuleStaysTaken<R(!new)>(t: Import<R>, lib: Library<R>, hist: seq<FirmwareRule<R>>, appType: string,
      changed: FirmwareRule<R>, next: FirmwareRule<R>)
    requires Lawful(lib) && TracedPut(t, lib, hist) && Accepted(t, lib, true, appType, changed)
    requires RuleShelf(lib, changed.rule) != RuleShelf(lib, t.db[changed.id].rule)
    requires lib.same(t.db[changed.id].rule, next.rule)
    requires next.id != changed.id && next.applicationType == appType
    ensures var u := ImportOne(t, lib, true, appType, changed, "");
            Duplicate(u, lib, next) && RuleGivenUp(u, lib, hist + [changed], next)
  {
    hide IndexOf, Indexed, RuleTaken, NameTaken, RuleShelf, Entries, Current;
    var now, u, was := hist + [changed], ImportOne(t, lib, true, appType, changed, ""), t.db[changed.id];
    var shelf := RuleShelf(lib, was.rule);
    PutStep(t, lib, hist, appType, changed, "");
    OnItsShelf(lib, was);
    StoredIsLatest(t.db, lib, hist, changed.id, shelf);
    DuplicateOfIndex(t, IndexOf(lib, hist), lib, next);
    StaysOnShelf(t, lib, changed, was, u);
    EqualRulesShareShelf(lib, was.rule, next.rule);
    assert !lib.same(changed.rule, next.rule) by {
      if lib.same(changed.rule, next.rule) {
        EqualRulesShareShelf(lib, changed.rule, next.rule);
      }
    }
    ShelfHoldsFiled(lib, hist, shelf, was);
    var i: nat :| i < |hist| && hist[i] == was;
    assert now[i] == was && WellKeyed(t.db);
    TracedIds(u, lib, now);
    assert GaveUpRule(u, lib, now, i, next);
    PutRuleCheck(u, lib, now, next);
  }

  lemma TracedIds<R>(t: Import<R>, lib: Library<R>, hist: seq<FirmwareRule<R>>)
    requires TracedPut(t, lib, hist)
    ensures forall j | 0 <= j < |hist| :: hist[j].id in t.db
  {
  }

  lemma StaysOnShelf<R>(t: Import<R>, lib: Library<R>, e: FirmwareRule<R>, x: FirmwareRule<R>, u: Import<R>)
    requires SameIndex(u, Indexed(t, lib, e)) && RuleShelf(lib, e.rule) != RuleShelf(lib, x.rule)
    requires x in Entries(t, RuleShelf(lib, x.rule))
    ensures x in Entries(u, RuleShelf(lib, x.rule))
  {
    hide Without, CompactedInPlace;
  }

  /** Two submitted rules with the same blank identifier are never compared with each other: if the first
      is accepted and the second clashes with nothing else, both are stored even when their names agree. */
  lemma BlanksEscapeTheCheck<R(!new)>(s: Import<R>, lib: Library<R>, appType: string, a: FirmwareRule<R>,
      b: FirmwareRule<R>, newA: string, newB: string)
    requires Blank(a.id) && a.id == b.id && a.id !in s.db && a.name == b.name
    requires newA !in s.db && newB !in s.db && newA != newB && !Blank(newA) && !Blank(newB)
    requires Accepted(s, lib, false, appType, a) && Accepted(s, lib, false, appType, b)
    ensures var t := ImportOne(ImportOne(s, lib, false, appType, a, newA), lib, false, appType, b, newB);
            newA in t.db && newB in t.db && !Unique(t.db, lib)
  {
    hide RulesToCompare, Indexed, Duplicate;
    var t := ImportOne(s, lib, false, appType, a, newA);
    NotComparedWithTwin(s, lib, a, b);
    DuplicateOfIndex(Indexed(s, lib, a), t, lib, b);
    assert Accepted(t, lib, false, appType, b);
    var u := ImportOne(t, lib, false, appType, b, newB);
    assert u.db[newA].applicationType == u.db[newB].applicationType && u.db[newA].name == u.db[newB].name;
  }

  lemma NotComparedWithTwin<R>(s: Import<R>, lib: Library<R>, a: FirmwareRule<R>, b: FirmwareRule<R>)
    requires a.id == b.id && !Duplicate(s, lib, b)
    ensures !Duplicate(Indexed(s, lib, a), lib, b)
  {
    hide Indexed, Without, CompactedInPlace;
    var t := Indexed(s, lib, a);
    forall shelf, x | x in Entries(t, shelf) ensures x == a || x in Entries(s, shelf) {
      EntriesNext(s, lib, a, shelf);
      WithoutHolds(Entries(s, shelf), a.id, x);
      CompactedHolds(Entries(s, shelf), a.id, x);
    }
    forall x | x in Bucket(t.names, b.name) ensures !Other(x, b) {
      assert x in Entries(t, ByName(b.name));
    }
    forall x | x in RulesToCompare(t, lib, b.rule) ensures !(Other(x, b) && lib.same(x.rule, b.rule)) {
      RulesGain(s, lib, a, b.rule, x);
    }
  }

  lemma RulesGain<R>(s: Import<R>, lib: Library<R>, a: FirmwareRule<R>, rule: R, x: FirmwareRule<R>)
    requires x in RulesToCompare(Indexed(s, lib, a), lib, rule)
    ensures x == a || x in RulesToCompare(s, lib, rule)
  {
    hide Without, CompactedInPlace;
    WithoutHolds(Bucket(s.estbs, lib.estb(a.rule)), a.id, x);
    CompactedHolds(Bucket(s.rules, lib.mapKey(a.rule)), a.id, x);
  }

  /** The entry of a rule that came without an identifier can be overwritten, and then even a rule with a
      proper identifier that equals it is let in: a and b come under one blank and share a key with x; when b is
      filed, the dropped compaction turns the entries a, x into x, x. No two of a, x and b share a name or a rule. */
  lemma OverwrittenEntry<R(!new)>(lib: Library<R>, a: FirmwareRule<R>, x: FirmwareRule<R>, b: FirmwareRule<R>,
      d: FirmwareRule<R>)
    requires Lawful(lib) && Blank(a.id) && b.id == a.id && !Blank(x.id) && !Blank(d.id) && x.id != d.id
    requires a.applicationType == x.applicationType == b.applicationType == d.applicationType
    requires a.name != x.name && a.name != b.name && a.name != d.name
    requires x.name != b.name && x.name != d.name && b.name != d.name
    requires lib.estb(a.rule) == lib.estb(x.rule) == lib.estb(b.rule) == ""
    requires lib.mapKey(a.rule) == lib.mapKey(x.rule) == lib.mapKey(b.rule)
    requires lib.same(a.rule, d.rule) && lib.same(d.rule, a.rule)
    requires !lib.same(a.rule, x.rule) && !lib.same(a.rule, b.rule) && !lib.same(x.rule, b.rule)
    requires !lib.same(x.rule, d.rule) && !lib.same(b.rule, d.rule)
    ensures var hist := [a, x, b, d];
            Screened(lib, hist, 0) && EscapingRules(lib, hist, 0, 3) && forall i: nat, j: nat :: !NameTwins(hist, i, j)
  {
    hide IndexOf;
    var hist := [a, x, b, d];
    assert hist[..0] == [] && hist[..1] == [a] && hist[..2] == [a, x] && hist[..3] == [a, x, b];
    KeyAfterOverwrite(lib, a, x, b);
    assert a !in Entries(IndexOf(lib, [a, x, b]), RuleShelf(lib, a.rule));
    forall j: nat | j < 4 ensures PassedAt(lib, hist, j) {
      NothingSeen(lib, hist, j);
    }
  }

  /** A submission that passes the check is stored. */
  lemma PassedIsStored<R>(t: Import<R>, lib: Library<R>, appType: string, hist: seq<FirmwareRule<R>>, keys: seq<string>,
      e: FirmwareRule<R>, newId: string)
    requires TracedPost(t, lib, appType, hist, keys) && FreshKey(t.db, e, newId)
    requires !Duplicate(IndexOf(lib, hist), lib, e)
    requires e.id !in t.db && e.applicationType == appType && lib.valid(e)
    ensures var u := ImportOne(t, lib, false, appType, e, newId);
            && Accepted(t, lib, false, appType, e) && u.db.Keys == t.db.Keys + {Key(e.id, newId)}
            && TracedPost(u, lib, appType, hist + [e], keys + [Key(e.id, newId)])
  {
    hide IndexOf, Duplicate, Stores, WellKeyed, SameIndex, Indexed;
    DuplicateOfIndex(t, IndexOf(lib, hist), lib, e);
    PostStep(t, lib, appType, hist, keys, e, newId);
  }

  /** The same four submissions as a POST to an empty table: all are accepted, and two equal rules are stored. */
  lemma OverwrittenInBatch<R(!new)>(lib: Library<R>, a: FirmwareRule<R>, x: FirmwareRule<R>, b: FirmwareRule<R>,
      d: FirmwareRule<R>, appType: string, newA: string, newB: string)
    requires Lawful(lib) && a.id == b.id == "" && !Blank(x.id) && !Blank(d.id) && !Blank(newA) && !Blank(newB)
    requires NoDup([newA, x.id, newB, d.id])
    requires a.applicationType == x.applicationType == b.applicationType == d.applicationType == appType
    requires a.name != x.name && a.name != b.name && a.name != d.name
    requires x.name != b.name && x.name != d.name && b.name != d.name
    requires lib.estb(a.rule) == lib.estb(x.rule) == lib.estb(b.rule) == ""
    requires lib.mapKey(a.rule) == lib.mapKey(x.rule) == lib.mapKey(b.rule)
    requires lib.same(a.rule, d.rule) && lib.same(d.rule, a.rule)
    requires !lib.same(a.rule, x.rule) && !lib.same(a.rule, b.rule) && !lib.same(x.rule, b.rule)
    requires !lib.same(x.rule, d.rule) && !lib.same(b.rule, d.rule)
    requires lib.valid(a) && lib.valid(x) && lib.valid(b) && lib.valid(d)
    ensures var batch := [Submitted(a, newA), Submitted(x, ""), Submitted(b, newB), Submitted(d, "")];
            var t := ImportAll(Filed(map[], lib, []), lib, false, appType, batch);
            t.db.Keys == {newA, x.id, newB, d.id} && !RulesUnique(t.db, lib)
  {
    hide IndexOf, Duplicate, ImportOne, ImportAll, Accepted, TracedPost, Screened, Lawful, Filed;
    hide EscapingRules, NameTwins;
    var ids := [newA, x.id, newB, d.id];
    assert ids[0] != ids[1] && ids[0] != ids[2] && ids[0] != ids[3] && ids[1] != ids[2] && ids[1] != ids[3];
    assert ids[2] != ids[3];
    var batch := [Submitted(a, newA), Submitted(x, ""), Submitted(b, newB), Submitted(d, "")];
    var s := Filed(map[], lib, []);
    OverwrittenEntry(lib, a, x, b, d);
    PrefixesPass(lib, a, x, b, d);
    StartsEmpty(lib, appType);
    FoldOfFour(s, lib, appType, batch);
    assert [] + [a] == [a] && [] + [a, x] == [a, x] && [] + [newA, x.id] == [newA, x.id];
    assert [a, x] + [b] == [a, x, b] && [a, x] + [b, d] == [a, x, b, d];
    var t := ImportTwo(s, lib, appType, [], [], a, newA, x, "");
    var u := ImportTwo(t, lib, appType, [a, x], [newA, x.id], b, newB, d, "");
    TwoEqualRules(u, lib, appType, [a, x, b, d], [newA, x.id] + [newB, d.id]);
  }

  lemma TwoEqualRules<R(!new)>(t: Import<R>, lib: Library<R>, appType: string, hist: seq<FirmwareRule<R>>,
      keys: seq<string>)
    requires Lawful(lib) && TracedPost(t, lib, appType, hist, keys) && SameRuleAt(lib, hist, 0, 3)
    ensures !RulesUnique(t.db, lib)
  {
    UniqueAsHistory(t.db, lib, hist, keys, appType);
  }

  /** Two submissions that pass the check one after the other. */
  lemma ImportTwo<R>(t: Import<R>, lib: Library<R>, appType: string, hist: seq<FirmwareRule<R>>, keys: seq<string>,
      e: FirmwareRule<R>, newE: string, f: FirmwareRule<R>, newF: string) returns (u: Import<R>)
    requires TracedPost(t, lib, appType, hist, keys) && FreshKey(t.db, e, newE)
    requires !Duplicate(IndexOf(lib, hist), lib, e) && !Duplicate(IndexOf(lib, hist + [e]), lib, f)
    requires e.id !in t.db && e.applicationType == f.applicationType == appType && lib.valid(e) && lib.valid(f)
    requires f.id !in t.db && f.id != Key(e.id, newE) && !Blank(f.id)
    ensures u == ImportOne(ImportOne(t, lib, false, appType, e, newE), lib, false, appType, f, newF)
    ensures u.db.Keys == t.db.Keys + {Key(e.id, newE), f.id}
    ensures TracedPost(u, lib, appType, hist + [e, f], keys + [Key(e.id, newE), f.id])
  {
    hide IndexOf, Duplicate, ImportOne, Accepted, TracedPost;
    u := ImportOne(t, lib, false, appType, e, newE);
    PassedIsStored(t, lib, appType, hist, keys, e, newE);
    PassedIsStored(u, lib, appType, hist + [e], keys + [Key(e.id, newE)], f, newF);
    u := ImportOne(u, lib, false, appType, f, newF);
    assert hist + [e] + [f] == hist + [e, f];
    assert keys + [Key(e.id, newE)] + [f.id] == keys + [Key(e.id, newE), f.id];
  }

  lemma StartsEmpty<R>(lib: Library<R>, appType: string)
    ensures Filed<R>(map[], lib, []).db == map[]
    ensures TracedPost<R>(Filed(map[], lib, []), lib, appType, [], [])
  {
  }

  lemma PrefixesPass<R>(lib: Library<R>, a: FirmwareRule<R>, x: FirmwareRule<R>, b: FirmwareRule<R>, d: FirmwareRule<R>)
    requires Screened(lib, [a, x, b, d], 0)
    ensures !Duplicate(IndexOf(lib, []), lib, a) && !Duplicate(IndexOf(lib, [a]), lib, x)
    ensures !Duplicate(IndexOf(lib, [a, x]), lib, b) && !Duplicate(IndexOf(lib, [a, x, b]), lib, d)
  {
    hide IndexOf, Duplicate;
    var hist := [a, x, b, d];
    assert hist[..0] == [] && hist[..1] == [a] && hist[..2] == [a, x] && hist[..3] == [a, x, b];
    assert PassedAt(lib, hist, 0) && PassedAt(lib, hist, 1) && PassedAt(lib, hist, 2) && PassedAt(lib, hist, 3);
  }

  ghost function Post<R>(s: Import<R>, lib: Library<R>, appType: string, x: Submitted<R>): Import<R> {
    ImportOne(s, lib, false, appType, x.entity, x.newId)
  }

  lemma FoldOfFour<R>(s: Import<R>, lib: Library<R>, appType: string, batch: seq<Submitted<R>>)
    requires |batch| == 4
    ensures var t2 := Post(Post(s, lib, appType, batch[0]), lib, appType, batch[1]);
            ImportAll(s, lib, false, appType, batch) == Post(Post(t2, lib, appType, batch[2]), lib, appType, batch[3])
  {
    hide ImportOne;
    assert batch[..3][..2] == batch[..2] && batch[..2][..1] == batch[..1] && batch[..1][..0] == [];
    var t1, t2 := ImportAll(s, lib, false, appType, batch[..1]), ImportAll(s, lib, false, appType, batch[..2]);
    assert ImportAll(s, lib, false, appType, batch[..1][..0]) == s;
    assert t1 == Post(s, lib, appType, batch[0]);
    assert t2 == Post(t1, lib, appType, batch[1]);
    assert ImportAll(s, lib, false, appType, batch[..3]) == Post(t2, lib, appType, batch[2]);
  }

  lemma NothingSeen<R(!new)>(lib: Library<R>, hist: seq<FirmwareRule<R>>, j: nat)
    requires Lawful(lib) && j < |hist| && OneType(hist)
    requires forall i: nat | i < j && Clashing(hist[i], hist[j], lib) ::
               Hidden(IndexOf(lib, hist[..j]), lib, hist[i], hist[j])
    ensures PassedAt(lib, hist, j)
  {
    hide IndexOf, Lawful, Clashing, Hidden, Duplicate;
    assert forall k | 0 <= k < j :: hist[..j][k] == hist[k];
    DuplicateIs(lib, hist[..j], hist[j]);
  }

  lemma EmptyShelf<R>(lib: Library<R>, shelf: Shelf)
    ensures Entries(IndexOf<R>(lib, []), shelf) == []
  {
  }

  lemma SmallCompactions<R>(a: FirmwareRule<R>, x: FirmwareRule<R>, b: FirmwareRule<R>)
    requires a.id == b.id != x.id
    ensures CompactedInPlace<R>([], a.id) == [] && CompactedInPlace([a], x.id) == [a]
    ensures CompactedInPlace([a, x], b.id) == [x, x]
  {
    assert [a, x][..1] == [a] && [a, x][1..] == [x];
    assert Without([a], b.id) == [] && Without([a, x], b.id) == [x];
  }

  lemma KeyAfterOverwrite<R>(lib: Library<R>, a: FirmwareRule<R>, x: FirmwareRule<R>, b: FirmwareRule<R>)
    requires a.id == b.id != x.id
    requires lib.estb(a.rule) == lib.estb(x.rule) == lib.estb(b.rule) == ""
    requires lib.mapKey(a.rule) == lib.mapKey(x.rule) == lib.mapKey(b.rule)
    ensures Entries(IndexOf(lib, [a, x, b]), RuleShelf(lib, a.rule)) == [x, x, b]
  {
    hide Entries, Indexed, Without, CompactedInPlace, IndexOf;
    var shelf := RuleShelf(lib, a.rule);
    SmallCompactions(a, x, b);
    EmptyShelf(lib, shelf);
    assert [] + [a] == [a] && [a] + [x] == [a, x] && [a, x] + [b] == [a, x, b];
    IndexNext(lib, [], a);
    EntriesNext(IndexOf(lib, []), lib, a, shelf);
    IndexNext(lib, [a], x);
    EntriesNext(IndexOf(lib, [a]), lib, x, shelf);
    IndexNext(lib, [a, x], b);
    EntriesNext(IndexOf(lib, [a, x]), lib, b, shelf);
  }
}
