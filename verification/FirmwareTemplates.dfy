/** Firmware rule templates: ordered by priority within their action type, seeded when the table is
    empty, and edited by create, update, move and delete. */
module FirmwareTemplates {
  import opened Basics
  import opened PriorityOrder
  import opened RuleTable
  import opened NamedRules

  const RULE_TEMPLATE := "RULE_TEMPLATE"
  const BLOCKING_FILTER_TEMPLATE := "BLOCKING_FILTER_TEMPLATE"
  const DEFINE_PROPERTIES_TEMPLATE := "DEFINE_PROPERTIES_TEMPLATE"

  const ACTION_TYPES := {RULE_TEMPLATE, BLOCKING_FILTER_TEMPLATE, DEFINE_PROPERTIES_TEMPLATE}

  /** `acceptable` stands for the checks of one template on its own, `inUse` for some firmware rule
      being built from the template. */
  datatype Request<R> =
    | Create(template: Rule<R>, acceptable: bool)
    | Update(template: Rule<R>, acceptable: bool)
    | MovePriority(id: string, newPriority: int)
    | Delete(id: string, inUse: bool)

  datatype Outcome = Done | BadRequest | NotFound | Conflict | IndexOutOfRange

  ghost predicate MaySave<R(!new)>(lists: Lists<Body<R>>, t: Rule<R>, acceptable: bool, same: (R, R) -> bool) {
    acceptable && t.group in lists && !Clashes(lists[t.group], t.id, t.body, same)
  }

  /** An update looks the template up in the list of the action type it now names. A template that
      changes its action type is not in that list; then the last one of the list is shifted, or, if the
      list is empty, the request ends in an index out of range. */
  ghost function Step<R(!new)>(lists: Lists<Body<R>>, request: Request<R>, same: (R, R) -> bool): Lists<Body<R>> {
    match request
    case Create(t, acceptable) =>
      if !Known(lists, t.id) && MaySave(lists, t, acceptable, same)
      then lists[t.group := InsertIn(lists[t.group], t)]
      else lists
    case Update(t, acceptable) =>
      if !Known(lists, t.id) || !MaySave(lists, t, acceptable, same) then lists
      else if i: nat :| At(lists, t.group, i, t.id) then lists[t.group := ReplaceIn(lists[t.group], i, t)]
      else if lists[t.group] == [] then lists
      else lists[t.group := MoveIn(lists[t.group], |lists[t.group]| - 1, t.priority)]
    case MovePriority(id, newPriority) =>
      if g, i: nat :| At(lists, g, i, id) then lists[g := MoveIn(lists[g], i, newPriority)] else lists
    case Delete(id, inUse) =>
      if g, i: nat :| At(lists, g, i, id) && !inUse then lists[g := RemoveAt(lists[g], i)] else lists
  }

  ghost function Run<R(!new)>(lists: Lists<Body<R>>, requests: seq<Request<R>>, same: (R, R) -> bool): Lists<Body<R>> {
    if requests == [] then lists
    else Step(Run(lists, requests[..|requests| - 1], same), requests[|requests| - 1], same)
  }

  lemma StepOnTable<R(!new)>(db: Table<Body<R>>, lists: Lists<Body<R>>, request: Request<R>, same: (R, R) -> bool)
    requires Consistent(db, lists)
    ensures request.Update? ==>
              var t := request.template;
              Step(lists, request, same) ==
              if t.id !in db || !MaySave(lists, t, request.acceptable, same) then lists
              else if db[t.id].group == t.group
              then lists[t.group := ReplaceIn(lists[t.group], db[t.id].priority - 1, t)]
              else if lists[t.group] == [] then lists
              else lists[t.group := MoveIn(lists[t.group], |lists[t.group]| - 1, t.priority)]
    ensures request.MovePriority? ==>
              Step(lists, request, same) ==
              if request.id !in db then lists
              else
                var t := db[request.id];
                lists[t.group := MoveIn(lists[t.group], t.priority - 1, request.newPriority)]
    ensures request.Delete? ==>
              Step(lists, request, same) ==
              if request.id !in db || request.inUse then lists
              else
                var t := db[request.id];
                lists[t.group := RemoveAt(lists[t.group], t.priority - 1)]
  {
    hide Consistent, ReplaceIn, MoveIn, InsertIn, RemoveAt, Clashes;
    var id := match request
      case Create(t, _) => t.id
      case Update(t, _) => t.id
      case MovePriority(id, _) => id
      case Delete(id, _) => id;
    LocatedOnce(db, lists, id);
    KnownIsStored(db, lists, id);
  }

  class FirmwareTemplateService<R(==, !new)> {
    const table: RuleStore<Body<R>>
    const same: (R, R) -> bool

    constructor (table: RuleStore<Body<R>>, same: (R, R) -> bool)
      ensures this.table == table && this.same == same
    {
      this.table, this.same := table, same;
    }

    ghost predicate Valid()
      reads table
    {
      table.Valid() && table.lists.Keys == ACTION_TYPES
    }

    method Validate(t: Rule<R>, acceptable: bool) returns (o: Outcome)
      requires Valid()
      ensures o.Done? <==> MaySave(table.lists, t, acceptable, same)
    {
      if !acceptable || t.group !in ACTION_TYPES {
        return BadRequest;
      }
      ClashIsStored(table.db, table.lists, t, same);
      var clash := FindClash(table.db, t, same);
      o := if clash then Conflict else Done;
    }

    method CreateTemplate(t: Rule<R>, acceptable: bool) returns (o: Outcome)
      requires Valid()
      modifies table
      ensures Valid() && table.lists == Step(old(table.lists), Create(t, acceptable), same)
      ensures o.Done? <==> t.id !in old(table.db) && MaySave(old(table.lists), t, acceptable, same)
    {
      hide Consistent, InsertIn, Clashes;
      KnownIsStored(table.db, table.lists, t.id);
      if t.id in table.db {
        return Conflict;
      }
      o := Validate(t, acceptable);
      if o.Done? {
        ConsistentIsUsable(table.db, table.lists);
        ghost var sorted := table.Insert(t);
      }
    }

    method UpdateTemplate(t: Rule<R>, acceptable: bool) returns (o: Outcome)
      requires Valid()
      modifies table
      ensures Valid() && table.lists == Step(old(table.lists), Update(t, acceptable), same)
      ensures o.Done? <==> && t.id in old(table.db) && MaySave(old(table.lists), t, acceptable, same)
                           && (old(table.db)[t.id].group == t.group || old(table.lists)[t.group] != [])
    {
      hide Consistent, Listing, Step, ReplaceIn, MoveIn, Clashes;
      StepOnTable(table.db, table.lists, Update(t, acceptable), same);
      KnownIsStored(table.db, table.lists, t.id);
      if t.id !in table.db {
        return BadRequest;
      }
      o := Validate(t, acceptable);
      if o.Done? {
        if table.db[t.id].group == t.group {
          table.Replace(t);
        } else {
          var size := table.Size(t.group);
          if size == 0 {
            return IndexOutOfRange;
          }
          table.ReplaceAbsent(t);
        }
      }
    }

    method MoveTemplate(id: string, newPriority: int) returns (o: Outcome)
      requires Valid()
      modifies table
      ensures Valid() && table.lists == Step(old(table.lists), MovePriority(id, newPriority), same)
      ensures o == if id in old(table.db) then Done else BadRequest
    {
      hide Consistent, Listing, Step, MoveIn;
      ConsistentFacts(table.db, table.lists);
      StepOnTable(table.db, table.lists, MovePriority(id, newPriority), same);
      if id !in table.db {
        return BadRequest;
      }
      ListedAt(table.db, table.db[id].group, table.lists[table.db[id].group], id);
      table.Shift(table.db[id].group, table.db[id].priority, newPriority);
      return Done;
    }

    method DeleteTemplate(id: string, inUse: bool) returns (o: Outcome)
      requires Valid()
      modifies table
      ensures Valid() && table.lists == Step(old(table.lists), Delete(id, inUse), same)
      ensures o == if inUse then Conflict else if id in old(table.db) then Done else NotFound
    {
      hide Consistent, Listing, Stored, Step, RemoveAt;
      ConsistentFacts(table.db, table.lists);
      StepOnTable(table.db, table.lists, Delete(id, inUse), same);
      if inUse {
        return Conflict;
      }
      if id !in table.db {
        return NotFound;
      }
      ghost var kept := table.DeleteAndPack(id);
      return Done;
    }

    /** Every run of template requests keeps each action type numbered exactly 1..n and refines the same
        run on the lists. */
    method ServeAll(requests: seq<Request<R>>)
      requires Valid()
      modifies table
      ensures Valid() && table.lists == Run(old(table.lists), requests, same)
      ensures forall g | g in ACTION_TYPES :: Dense(table.db, g, |table.lists[g]|)
    {
      hide Consistent, Step;
      for n := 0 to |requests|
        invariant Valid() && table.lists == Run(old(table.lists), requests[..n], same)
      {
        assert requests[..n + 1][..n] == requests[..n];
        var o;
        match requests[n] {
          case Create(t, acceptable) => o := CreateTemplate(t, acceptable);
          case Update(t, acceptable) => o := UpdateTemplate(t, acceptable);
          case MovePriority(id, newPriority) => o := MoveTemplate(id, newPriority);
          case Delete(id, inUse) => o := DeleteTemplate(id, inUse);
        }
      }
      assert requests[..|requests|] == requests;
      ConsistentIsDense(table.db, table.lists);
    }
  }

  // ---- the seeded table

  /** The built-in templates in the order they are written: action type and priority of each. */
  const SEED: seq<(string, int)> := [
    (RULE_TEMPLATE, 1), (RULE_TEMPLATE, 2), (RULE_TEMPLATE, 3), (RULE_TEMPLATE, 4), (RULE_TEMPLATE, 5),
    (BLOCKING_FILTER_TEMPLATE, 1), (BLOCKING_FILTER_TEMPLATE, 2), (BLOCKING_FILTER_TEMPLATE, 3),
    (DEFINE_PROPERTIES_TEMPLATE, 3), (DEFINE_PROPERTIES_TEMPLATE, 1), (DEFINE_PROPERTIES_TEMPLATE, 2),
    (DEFINE_PROPERTIES_TEMPLATE, 4)]

  const SIZES: map<string, nat> :=
    map[RULE_TEMPLATE := 5, BLOCKING_FILTER_TEMPLATE := 3, DEFINE_PROPERTIES_TEMPLATE := 4]

  function Seeded<R>(ids: seq<string>, bodies: seq<Body<R>>, n: nat): (r: Rule<R>)
    requires n < |SEED| == |ids| == |bodies|
  {
    Record(ids[n], SEED[n].0, SEED[n].1, bodies[n])
  }

  /** Fills an empty table with the built-in templates; a table that holds any template is left alone. */
  method CreateFirmwareRuleTemplates<R>(db: Table<Body<R>>, ids: seq<string>, bodies: seq<Body<R>>)
    returns (seeded: Table<Body<R>>)
    requires |ids| == |bodies| == |SEED| && NoDup(ids)
    ensures db != map[] ==> seeded == db
    ensures db == map[] ==>
              && WellKeyed(seeded) && (forall id | id in seeded :: seeded[id].group in SIZES)
              && forall g | g in SIZES :: Dense(seeded, g, SIZES[g])
  {
    seeded := db;
    if |db| > 0 {
      return;
    }
    for n := 0 to |SEED|
      invariant forall id | id in seeded :: id in ids[..n]
      invariant forall k: nat | k < n :: ids[k] in seeded && seeded[ids[k]] == Seeded(ids, bodies, k)
    {
      seeded := seeded[ids[n] := Seeded(ids, bodies, n)];
    }
    SeedIsDense(seeded, ids, bodies);
  }

  lemma SeedIsDense<R>(db: Table<Body<R>>, ids: seq<string>, bodies: seq<Body<R>>)
    requires |ids| == |bodies| == |SEED| && NoDup(ids)
    requires forall id | id in db :: id in ids
    requires forall k: nat | k < |SEED| :: ids[k] in db && db[ids[k]] == Seeded(ids, bodies, k)
    ensures WellKeyed(db) && (forall id | id in db :: db[id].group in SIZES)
    ensures forall g | g in SIZES :: Dense(db, g, SIZES[g])
  {
    forall id | id in db
      ensures db[id].id == id && db[id].group in SIZES && 1 <= db[id].priority <= SIZES[db[id].group]
      ensures id == ids[SeedIndex(db[id].group, db[id].priority)]
    {
      var n: nat :| n < |ids| && ids[n] == id;
      assert db[id] == Seeded(ids, bodies, n);
      SeedPosition(n);
    }
    forall g, p | g in SIZES && 1 <= p <= SIZES[g] ensures Occupied(db, g, p) {
      var n := SeedIndex(g, p);
      assert db[ids[n]] == Seeded(ids, bodies, n);
    }
  }

  lemma SeedPosition(n: nat)
    requires n < |SEED|
    ensures SEED[n].0 in SIZES && 1 <= SEED[n].1 <= SIZES[SEED[n].0] && SeedIndex(SEED[n].0, SEED[n].1) == n
  {
  }

  function SeedIndex(g: string, p: int): (n: nat)
    requires g in SIZES && 1 <= p <= SIZES[g]
    ensures n < |SEED| && SEED[n] == (g, p)
  {
    if g == RULE_TEMPLATE then p - 1
    else if g == BLOCKING_FILTER_TEMPLATE then p + 4
    else if p == 3 then 8
    else if p == 4 then 11
    else p + 8
  }

  /** From an empty database: seed it, then serve any run of requests. Whatever the run, every action type
      is numbered exactly 1..n afterwards. */
  method ServeFromSeed<R(==, !new)>(ids: seq<string>, bodies: seq<Body<R>>, requests: seq<Request<R>>,
      same: (R, R) -> bool)
    returns (service: FirmwareTemplateService<R>)
    requires |ids| == |bodies| == |SEED| && NoDup(ids)
    ensures service.Valid() && forall g | g in ACTION_TYPES :: Dense(service.table.db, g, |service.table.lists[g]|)
  {
    hide Dense, Consistent;
    var db := CreateFirmwareRuleTemplates(map[], ids, bodies);
    assert |ALL| == 3 && ALL !in SIZES;
    var table := new RuleStore(db, SIZES);
    service := new FirmwareTemplateService(table, same);
    service.ServeAll(requests);
  }

  // ---- what the requests promise

  /** A run is its requests one after the other. */
  lemma RunNext<R(!new)>(lists: Lists<Body<R>>, requests: seq<Request<R>>, request: Request<R>, same: (R, R) -> bool)
    ensures Run(lists, [], same) == lists
    ensures Run(lists, requests + [request], same) == Step(Run(lists, requests, same), request, same)
  {
    assert (requests + [request])[..|requests|] == requests;
  }

  /** When a create is accepted, and where the template ends up. */
  lemma CreateDoes<R(!new)>(lists: Lists<Body<R>>, t: Rule<R>, acceptable: bool, same: (R, R) -> bool)
    ensures var accepted :=
              && acceptable && t.group in lists
              && (forall g, k | g in lists && 0 <= k < |lists[g]| :: lists[g][k].id != t.id)
              && (forall k | 0 <= k < |lists[t.group]| ::
                    lists[t.group][k].body.name != t.body.name && !same(t.body.rule, lists[t.group][k].body.rule));
            var after := Step(lists, Create(t, acceptable), same);
            if !accepted then after == lists
            else
              var l := lists[t.group];
              var p := if 1 <= t.priority <= |l| + 1 then t.priority - 1 else |l|;
              && after.Keys == lists.Keys && (forall g | g in lists && g != t.group :: after[g] == lists[g])
              && var n := after[t.group];
              |n| == |l| + 1 && n[p] == Entry(t.id, t.body) && n[..p] == l[..p] && n[p + 1..] == l[p..]
  {
    hide InsertIn;
    if g, k :| g in lists && 0 <= k < |lists[g]| && lists[g][k].id == t.id {
      assert At(lists, g, k, t.id);
    }
    if t.group in lists {
      InsertTakesPlace(lists[t.group], t);
    }
  }

  /** When an update of a template that keeps its action type is accepted, and what it leaves. */
  lemma UpdateDoes<R(!new)>(lists: Lists<Body<R>>, t: Rule<R>, acceptable: bool, same: (R, R) -> bool, i: nat)
    requires t.group in lists && i < |lists[t.group]| && lists[t.group][i].id == t.id
    requires forall k | 0 <= k < |lists[t.group]| && k != i :: lists[t.group][k].id != t.id
    ensures var l := lists[t.group];
            var accepted := acceptable && forall k | 0 <= k < |l| && k != i ::
                                             l[k].body.name != t.body.name && !same(t.body.rule, l[k].body.rule);
            var after := Step(lists, Update(t, acceptable), same);
            if !accepted then after == lists
            else
              var p := if 1 <= t.priority <= |l| then t.priority - 1 else |l| - 1;
              && after.Keys == lists.Keys && (forall g | g in lists && g != t.group :: after[g] == lists[g])
              && var n := after[t.group];
              |n| == |l| && n[p] == Entry(t.id, t.body) && n[..p] + n[p + 1..] == l[..i] + l[i + 1..]
  {
    hide ReplaceIn;
    assert At(lists, t.group, i, t.id) && forall k: nat :: At(lists, t.group, k, t.id) ==> k == i;
    ReplaceTakesPlace(lists[t.group], i, t);
  }

  lemma UpdateOfAbsentIs<R(!new)>(lists: Lists<Body<R>>, t: Rule<R>, acceptable: bool, same: (R, R) -> bool)
    requires t.group in lists && forall k | 0 <= k < |lists[t.group]| :: lists[t.group][k].id != t.id
    ensures var l := lists[t.group];
            var accepted :=
              && acceptable && (exists g, k | g in lists && 0 <= k < |lists[g]| :: lists[g][k].id == t.id)
              && (forall k | 0 <= k < |l| :: l[k].body.name != t.body.name && !same(t.body.rule, l[k].body.rule));
            Step(lists, Update(t, acceptable), same) ==
            if !accepted || l == [] then lists else lists[t.group := MoveIn(l, |l| - 1, t.priority)]
  {
    hide MoveIn, ReplaceIn;
    if g, k :| g in lists && 0 <= k < |lists[g]| && lists[g][k].id == t.id {
      assert At(lists, g, k, t.id);
    }
    assert forall k: nat :: !At(lists, t.group, k, t.id);
  }

  /** An update that changes the action type of a stored template moves the last template of the new type to the
      place the priority asks for; an unknown template, or one that may not be saved, changes nothing. */
  lemma UpdateOfAbsentDoes<R(!new)>(lists: Lists<Body<R>>, t: Rule<R>, acceptable: bool, same: (R, R) -> bool)
    requires t.group in lists && forall k | 0 <= k < |lists[t.group]| :: lists[t.group][k].id != t.id
    ensures var l := lists[t.group];
            var accepted :=
              && acceptable && (exists g, k | g in lists && 0 <= k < |lists[g]| :: lists[g][k].id == t.id)
              && (forall k | 0 <= k < |l| :: l[k].body.name != t.body.name && !same(t.body.rule, l[k].body.rule));
            var after := Step(lists, Update(t, acceptable), same);
            if !accepted || l == [] then after == lists
            else
              var p := if 1 <= t.priority <= |l| then t.priority - 1 else |l| - 1;
              && after.Keys == lists.Keys && (forall g | g in lists && g != t.group :: after[g] == lists[g])
              && var n := after[t.group];
              |n| == |l| && n[p] == l[|l| - 1] && n[..p] + n[p + 1..] == l[..|l| - 1]
  {
    hide MoveIn, Step;
    var l := lists[t.group];
    UpdateOfAbsentIs(lists, t, acceptable, same);
    if l != [] {
      MoveTakesPlace(l, |l| - 1, t.priority);
      assert l[..|l| - 1] + l[|l|..] == l[..|l| - 1];
    }
  }

  /** A priority move and a delete of the template at index i of an action type. */
  lemma MoveAndDeleteDo<R(!new)>(lists: Lists<Body<R>>, g: string, i: nat, id: string, newPriority: int, inUse: bool,
      same: (R, R) -> bool)
    requires g in lists && i < |lists[g]| && lists[g][i].id == id
    requires forall h, k | h in lists && 0 <= k < |lists[h]| && lists[h][k].id == id :: h == g && k == i
    ensures var l, after := lists[g], Step(lists, MovePriority(id, newPriority), same);
            var p := if 1 <= newPriority <= |l| then newPriority - 1 else |l| - 1;
            && after.Keys == lists.Keys && (forall h | h in lists && h != g :: after[h] == lists[h])
            && var n := after[g];
            |n| == |l| && n[p] == l[i] && n[..p] + n[p + 1..] == l[..i] + l[i + 1..]
    ensures var l, after := lists[g], Step(lists, Delete(id, inUse), same);
            if inUse then after == lists
            else
              && after.Keys == lists.Keys && (forall h | h in lists && h != g :: after[h] == lists[h])
              && after[g] == l[..i] + l[i + 1..]
  {
    hide MoveIn;
    assert At(lists, g, i, id) && forall h, k: nat :: At(lists, h, k, id) ==> h == g && k == i;
    MoveTakesPlace(lists[g], i, newPriority);
  }

  lemma UnknownDoesNothing<R(!new)>(lists: Lists<Body<R>>, id: string, newPriority: int, inUse: bool,
      same: (R, R) -> bool)
    requires forall h, k | h in lists && 0 <= k < |lists[h]| :: lists[h][k].id != id
    ensures Step(lists, MovePriority(id, newPriority), same) == lists && Step(lists, Delete(id, inUse), same) == lists
  {
  }

  // ---- unique names and rules

  ghost predicate Unique<R(!new)>(lists: Lists<Body<R>>, same: (R, R) -> bool) {
    forall g | g in lists :: NoClash(lists[g], same)
  }

  lemma StepKeepsUnique<R(!new)>(lists: Lists<Body<R>>, request: Request<R>, same: (R, R) -> bool)
    requires Unique(lists, same) && forall a, b :: same(a, b) == same(b, a)
    ensures Unique(Step(lists, request, same), same)
  {
    hide NoClash, InsertIn, ReplaceIn, RemoveAt, Move, Clashes;
    match request
    case Create(t, acceptable) =>
      if !Known(lists, t.id) && MaySave(lists, t, acceptable, same) {
        forall k: nat | k < |lists[t.group]| ensures lists[t.group][k].id != t.id {
          assert !At(lists, t.group, k, t.id);
        }
        InsertKeepsNoClash(lists[t.group], t, same);
      }
    case Update(t, acceptable) =>
      if MaySave(lists, t, acceptable, same) {
        forall i: nat | At(lists, t.group, i, t.id) ensures NoClash(ReplaceIn(lists[t.group], i, t), same) {
          ReplaceKeepsNoClash(lists[t.group], i, t, same);
        }
        if lists[t.group] != [] {
          var n := |lists[t.group]|;
          MoveKeepsNoClash(lists[t.group], n - 1, Clamp(t.priority, n) - 1, same);
        }
      }
    case MovePriority(id, newPriority) =>
      forall g, i: nat | At(lists, g, i, id) ensures NoClash(MoveIn(lists[g], i, newPriority), same) {
        MoveKeepsNoClash(lists[g], i, Clamp(newPriority, |lists[g]|) - 1, same);
      }
    case Delete(id, inUse) =>
      forall g, i: nat | At(lists, g, i, id) ensures NoClash(RemoveAt(lists[g], i), same) {
        RemoveKeepsNoClash(lists[g], i, same);
      }
  }

  /** Over every run no action type ever holds two templates with one name or two equal rules. */
  lemma {:induction false} RunKeepsUnique<R(!new)>(lists: Lists<Body<R>>, requests: seq<Request<R>>,
      same: (R, R) -> bool)
    requires Unique(lists, same) && forall a, b :: same(a, b) == same(b, a)
    ensures Unique(Run(lists, requests, same), same)
  {
    hide Unique, Step;
    if requests != [] {
      RunKeepsUnique(lists, requests[..|requests| - 1], same);
      StepKeepsUnique(Run(lists, requests[..|requests| - 1], same), requests[|requests| - 1], same);
    }
  }

  // ---- what an update stores

  /** An accepted update stores the new version of the template exactly when the template keeps its
      action type. */
  lemma UpdateStoresItsTemplate<R(!new)>(lists: Lists<Body<R>>, h: string, i: nat, t: Rule<R>, acceptable: bool,
      same: (R, R) -> bool)
    requires At(lists, h, i, t.id) && OnlyAt(lists, h, i, t.id) && MaySave(lists, t, acceptable, same)
    ensures t.group in Step(lists, Update(t, acceptable), same)
    ensures Entry(t.id, t.body) in Step(lists, Update(t, acceptable), same)[t.group] <==> h == t.group
  {
    hide Clashes, ReplaceIn, MoveIn;
    var l, entry := lists[t.group], Entry(t.id, t.body);
    if h == t.group {
      ReplacedIsListed(l, i, t);
    } else {
      forall k | 0 <= k < |l| ensures l[k] != entry {
        assert !At(lists, t.group, k, t.id);
      }
      if l != [] {
        MovedBringsNothing(l, |l| - 1, t.priority, entry);
      }
    }
  }

  /** An input: a template moves to another action type. It is not stored there, and the last template of that
      type is moved to the front instead. */
  lemma MovedTypeIsLost<R(!new)>(a: Body<R>, changed: Body<R>, b: Body<R>, c: Body<R>, same: (R, R) -> bool)
    requires changed.name != b.name && changed.name != c.name
    requires !same(changed.rule, b.rule) && !same(changed.rule, c.rule)
    ensures var lists := map[RULE_TEMPLATE := [Entry("a", a)],
                             BLOCKING_FILTER_TEMPLATE := [Entry("b", b), Entry("c", c)]];
            var update := Update(Record("a", BLOCKING_FILTER_TEMPLATE, 1, changed), true);
            Step(lists, update, same) == lists[BLOCKING_FILTER_TEMPLATE := [Entry("c", c), Entry("b", b)]]
  {
    var lists := map[RULE_TEMPLATE := [Entry("a", a)], BLOCKING_FILTER_TEMPLATE := [Entry("b", b), Entry("c", c)]];
    var t := Record("a", BLOCKING_FILTER_TEMPLATE, 1, changed);
    assert |RULE_TEMPLATE| != |BLOCKING_FILTER_TEMPLATE|;
    assert At(lists, RULE_TEMPLATE, 0, "a") && Known(lists, "a") && MaySave(lists, t, true, same);
    forall i: nat ensures !At(lists, BLOCKING_FILTER_TEMPLATE, i, "a") {
    }
    assert MoveIn(lists[BLOCKING_FILTER_TEMPLATE], 1, 1) == [Entry("c", c), Entry("b", b)];
  }

  lemma ReplacedIsListed<B>(l: seq<Entry<B>>, i: nat, rec: Record<B>)
    requires i < |l|
    ensures Entry(rec.id, rec.body) in ReplaceIn(l, i, rec)
  {
    var edited, p := l[i := Entry(rec.id, rec.body)], Clamp(rec.priority, |l|) - 1;
    MoveAt(edited, i, p, p);
    assert ReplaceIn(l, i, rec)[p] == Entry(rec.id, rec.body);
  }

  lemma MovedBringsNothing<B>(l: seq<Entry<B>>, i: nat, newPriority: int, entry: Entry<B>)
    requires i < |l| && entry !in l
    ensures entry !in MoveIn(l, i, newPriority)
  {
    var p, moved := Clamp(newPriority, |l|) - 1, MoveIn(l, i, newPriority);
    MoveAt(l, i, p, 0);
    forall k: nat | k < |l| ensures moved[k] != entry {
      MoveAt(l, i, p, k);
    }
  }
}
