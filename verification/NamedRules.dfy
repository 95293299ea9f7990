/** Rules that carry a name and a condition. Feature rules, firmware rule templates and DCM formulas
    all refuse a rule whose name or condition another rule of the group already has. */
module NamedRules {
  import opened Basics
  import opened PriorityOrder
  import opened RuleTable

  /** What a rule holds besides its key, group and priority. */
  datatype Body<R> = Body(name: string, rule: R)

  type Rule<R> = Record<Body<R>>

  // ---- positions in the lists

  ghost predicate At<R>(lists: Lists<Body<R>>, g: string, i: nat, id: string) {
    g in lists && i < |lists[g]| && lists[g][i].id == id
  }

  /** The rule stands at index i of list g and nowhere else. */
  ghost predicate OnlyAt<R>(lists: Lists<Body<R>>, g: string, i: nat, id: string) {
    forall h, k: nat :: At(lists, h, k, id) <==> h == g && k == i
  }

  ghost predicate Known<R>(lists: Lists<Body<R>>, id: string) {
    exists g, i :: At(lists, g, i, id)
  }

  /** Another rule of the list has the same name or an equal rule. */
  ghost predicate Clashes<R(!new)>(list: seq<Entry<Body<R>>>, id: string, body: Body<R>, same: (R, R) -> bool) {
    exists k | 0 <= k < |list| :: list[k].id != id &&
        (body.name == list[k].body.name || same(body.rule, list[k].body.rule))
  }

  // ---- the lists and the table say the same

  lemma Located<R>(db: Table<Body<R>>, lists: Lists<Body<R>>, g: string, i: nat, id: string)
    requires Consistent(db, lists)
    ensures At(lists, g, i, id) <==> id in db && db[id].group == g && db[id].priority == i + 1
  {
    if At(lists, g, i, id) {
      var recs := Numbering(g, lists[g]);
      assert recs[i] in recs;
    }
    if id in db && db[id].group == g && db[id].priority == i + 1 {
      ListedAt(db, g, lists[g], id);
    }
  }

  lemma LocatedOnce<R>(db: Table<Body<R>>, lists: Lists<Body<R>>, id: string)
    requires Consistent(db, lists)
    ensures forall g, i: nat :: At(lists, g, i, id) <==> id in db && db[id].group == g && db[id].priority == i + 1
    ensures id in db ==>
              var g, i := db[id].group, db[id].priority - 1;
              i >= 0 && At(lists, g, i, id) && OnlyAt(lists, g, i, id)
  {
    forall g, i: nat ensures At(lists, g, i, id) <==> id in db && db[id].group == g && db[id].priority == i + 1 {
      Located(db, lists, g, i, id);
    }
    if id in db {
      ListedAt(db, db[id].group, lists[db[id].group], id);
    }
  }

  lemma KnownIsStored<R>(db: Table<Body<R>>, lists: Lists<Body<R>>, id: string)
    requires Consistent(db, lists)
    ensures Known(lists, id) <==> id in db
  {
    if g, i: nat :| At(lists, g, i, id) {
      Located(db, lists, g, i, id);
    }
    if id in db {
      ListedAt(db, db[id].group, lists[db[id].group], id);
      assert At(lists, db[id].group, db[id].priority - 1, id);
    }
  }

  /** The scan of the stored rules: same type, another key, and the name or the rule coincides. */
  predicate ClashesWith<R>(other: Rule<R>, rule: Rule<R>, same: (R, R) -> bool) {
    other.id != rule.id && other.group == rule.group &&
        (rule.body.name == other.body.name || same(rule.body.rule, other.body.rule))
  }

  lemma ClashIsStored<R(!new)>(db: Table<Body<R>>, lists: Lists<Body<R>>, rule: Rule<R>, same: (R, R) -> bool)
    requires Consistent(db, lists) && rule.group in lists
    ensures Clashes(lists[rule.group], rule.id, rule.body, same) <==>
        exists k | k in db :: ClashesWith(db[k], rule, same)
  {
    var list, recs := lists[rule.group], Numbering(rule.group, lists[rule.group]);
    if i :| && 0 <= i < |list| && list[i].id != rule.id
            && (rule.body.name == list[i].body.name || same(rule.body.rule, list[i].body.rule)) {
      assert recs[i] in recs;
      assert ClashesWith(db[list[i].id], rule, same);
    }
    if k :| k in db && ClashesWith(db[k], rule, same) {
      ListedAt(db, rule.group, list, k);
    }
  }

  /** The scan of the stored rules before a save. */
  method FindClash<R(==)>(db: Table<Body<R>>, rule: Rule<R>, same: (R, R) -> bool) returns (found: bool)
    ensures found <==> exists k | k in db :: ClashesWith(db[k], rule, same)
  {
    found := AnyValue(db, (existing: Rule<R>) => ClashesWith(existing, rule, same));
  }

  // ---- lists without clashes

  /** Within a list no two rules share a key or a name or have equal rules. */
  ghost predicate NoClash<R(!new)>(list: seq<Entry<Body<R>>>, same: (R, R) -> bool) {
    forall i, j :: 0 <= i < |list| && 0 <= j < |list| && i != j ==>
      list[i].id != list[j].id && list[i].body.name != list[j].body.name && !same(list[i].body.rule, list[j].body.rule)
  }

  lemma SubListKeepsNoClash<R(!new)>(s: seq<Entry<Body<R>>>, t: seq<Entry<Body<R>>>, from: nat -> nat,
      same: (R, R) -> bool)
    requires NoClash(s, same)
    requires forall k: nat | k < |t| :: from(k) < |s| && t[k] == s[from(k)]
    requires forall j: nat, k: nat | j < k < |t| :: from(j) != from(k)
    ensures NoClash(t, same)
  {
    forall i: nat, j: nat | i < |t| && j < |t| && i != j
      ensures t[i].id != t[j].id && t[i].body.name != t[j].body.name && !same(t[i].body.rule, t[j].body.rule)
    {
      assert from(i) != from(j);
    }
  }

  lemma MoveKeepsNoClash<R(!new)>(s: seq<Entry<Body<R>>>, i: nat, j: nat, same: (R, R) -> bool)
    requires NoClash(s, same) && i < |s| && j < |s|
    ensures NoClash(Move(s, i, j), same)
  {
    forall k: nat | k < |s| ensures |Move(s, i, j)| == |s| && Source(i, j, k) < |s| &&
        Move(s, i, j)[k] == s[Source(i, j, k)] {
      MoveAt(s, i, j, k);
    }
    MoveAt(s, i, j, 0);
    SubListKeepsNoClash(s, Move(s, i, j), k => Source(i, j, k), same);
  }

  lemma RemoveKeepsNoClash<R(!new)>(s: seq<Entry<Body<R>>>, i: nat, same: (R, R) -> bool)
    requires NoClash(s, same) && i < |s|
    ensures NoClash(RemoveAt(s, i), same)
  {
    SubListKeepsNoClash(s, RemoveAt(s, i), k => if k < i then k else k + 1, same);
  }

  lemma InsertKeepsNoClash<R(!new)>(s: seq<Entry<Body<R>>>, rec: Rule<R>, same: (R, R) -> bool)
    requires NoClash(s, same) && (forall a, b :: same(a, b) == same(b, a))
    requires !Clashes(s, rec.id, rec.body, same) && forall k | 0 <= k < |s| :: s[k].id != rec.id
    ensures NoClash(InsertIn(s, rec), same)
  {
    var entry, p := Entry(rec.id, rec.body), Clamp(rec.priority, |s| + 1) - 1;
    assert NoClash(s + [entry], same);
    MoveLastIsInsert(s, entry, p);
    MoveKeepsNoClash(s + [entry], |s|, p, same);
  }

  lemma ReplaceKeepsNoClash<R(!new)>(s: seq<Entry<Body<R>>>, i: nat, rec: Rule<R>, same: (R, R) -> bool)
    requires NoClash(s, same) && (forall a, b :: same(a, b) == same(b, a))
    requires i < |s| && s[i].id == rec.id && !Clashes(s, rec.id, rec.body, same)
    ensures NoClash(ReplaceIn(s, i, rec), same)
  {
    var edited := s[i := Entry(rec.id, rec.body)];
    assert NoClash(edited, same);
    MoveKeepsNoClash(edited, i, Clamp(rec.priority, |s|) - 1, same);
  }
}
