/** The feature rule service: create, update, move and delete rules that are ordered by priority
    within their application type, and the abstract lists those requests act on. */
module FeatureRules {
  import opened Basics
  import opened PriorityOrder
  import opened RuleTable
  import opened NamedRules

  /** `acceptable` stands for the checks of one rule on its own: structure, operations, features,
      percent ranges. `freshId` is the identifier generated when a rule comes without one. */
  datatype Request<R> =
    | Create(rule: Rule<R>, caller: string, acceptable: bool, freshId: string)
    | Update(rule: Rule<R>, caller: string, acceptable: bool)
    | ChangePriority(id: string, newPriority: int, caller: string)
    | Delete(id: string, caller: string)

  datatype Outcome = Done | BadRequest | NotFound | Conflict | Forbidden | IndexOutOfRange

  // ---- what a request means on the lists

  function Completed<R>(rule: Rule<R>, caller: string, id: string): Rule<R> {
    rule.(id := id, group := if rule.group == "" then caller else rule.group)
  }

  /** The checks before a rule is saved. */
  ghost predicate MaySave<R(!new)>(lists: Lists<Body<R>>, rule: Rule<R>, caller: string, acceptable: bool,
      same: (R, R) -> bool) {
    && acceptable
    && rule.group == caller
    && rule.group in lists
    && !Clashes(lists[rule.group], rule.id, rule.body, same)
  }

  ghost function Step<R(!new)>(lists: Lists<Body<R>>, request: Request<R>, same: (R, R) -> bool): Lists<Body<R>> {
    match request
    case Create(rule, caller, acceptable, freshId) =>
      var r := Completed(rule, caller, if rule.id == "" then freshId else rule.id);
      if !Known(lists, r.id) && MaySave(lists, r, caller, acceptable, same)
      then lists[caller := InsertIn(lists[caller], r)]
      else lists
    case Update(rule, caller, acceptable) =>
      var r := Completed(rule, caller, rule.id);
      if i: nat :| rule.id != "" && MaySave(lists, r, caller, acceptable, same) && At(lists, caller, i, r.id)
      then lists[caller := ReplaceIn(lists[caller], i, r)]
      else lists
    case ChangePriority(id, newPriority, caller) =>
      if g, i: nat :| At(lists, g, i, id) && caller in lists && i < |lists[caller]|
      then lists[caller := MoveIn(lists[caller], i, newPriority)]
      else lists
    case Delete(id, caller) =>
      if i: nat :| At(lists, caller, i, id)
      then lists[caller := RemoveAt(lists[caller], i)]
      else lists
  }

  ghost function Run<R(!new)>(lists: Lists<Body<R>>, requests: seq<Request<R>>, same: (R, R) -> bool): Lists<Body<R>> {
    if requests == [] then lists
    else Step(Run(lists, requests[..|requests| - 1], same), requests[|requests| - 1], same)
  }

  lemma UpdateOnTable<R(!new)>(db: Table<Body<R>>, lists: Lists<Body<R>>, rule: Rule<R>, caller: string,
      acceptable: bool, same: (R, R) -> bool)
    requires Consistent(db, lists)
    ensures var r := Completed(rule, caller, rule.id);
            Step(lists, Update(rule, caller, acceptable), same) ==
            if rule.id != "" && MaySave(lists, r, caller, acceptable, same) && r.id in db && db[r.id].group == caller
            then lists[caller := ReplaceIn(lists[caller], db[r.id].priority - 1, r)]
            else lists
  {
    hide Consistent, ReplaceIn, Clashes;
    LocatedOnce(db, lists, rule.id);
  }

  lemma ChangePriorityOnTable<R(!new)>(db: Table<Body<R>>, lists: Lists<Body<R>>, id: string, newPriority: int,
      caller: string, same: (R, R) -> bool)
    requires Consistent(db, lists) && caller in lists
    ensures Step(lists, ChangePriority(id, newPriority, caller), same) ==
            if id in db && db[id].priority <= |lists[caller]|
            then lists[caller := MoveIn(lists[caller], db[id].priority - 1, newPriority)]
            else lists
    ensures id in db ==> db[id].priority >= 1
  {
    hide Consistent, MoveIn;
    LocatedOnce(db, lists, id);
  }

  lemma DeleteOnTable<R(!new)>(db: Table<Body<R>>, lists: Lists<Body<R>>, id: string, caller: string,
      same: (R, R) -> bool)
    requires Consistent(db, lists)
    ensures Step(lists, Delete(id, caller), same) ==
            if id in db && db[id].group == caller
            then lists[caller := RemoveAt(lists[caller], db[id].priority - 1)]
            else lists
  {
    hide Consistent, RemoveAt;
    LocatedOnce(db, lists, id);
  }

  class FeatureRuleService<R(==, !new)> {
    const table: RuleStore<Body<R>>
    const same: (R, R) -> bool

    constructor (table: RuleStore<Body<R>>, same: (R, R) -> bool)
      ensures this.table == table && this.same == same
    {
      this.table, this.same := table, same;
    }

    /** Per application type the stored priorities are exactly 1..n. */
    ghost predicate Valid()
      reads table
    {
      table.Valid() && table.lists.Keys == {STB, RDKCLOUD}
    }

    method BeforeSaving(rule: Rule<R>, caller: string, acceptable: bool) returns (o: Outcome)
      requires Valid() && ValidApplicationType(caller)
      ensures o.Done? <==> MaySave(table.lists, rule, caller, acceptable, same)
    {
      if !ValidApplicationType(rule.group) || !acceptable || rule.group != caller {
        return BadRequest;
      }
      ClashIsStored(table.db, table.lists, rule, same);
      var clash := FindClash(table.db, rule, same);
      o := if clash then Conflict else Done;
    }

    method CreateFeatureRule(rule: Rule<R>, caller: string, acceptable: bool, freshId: string) returns (o: Outcome)
      requires Valid() && ValidApplicationType(caller)
      requires freshId !in table.db && freshId != ""
      modifies table
      ensures Valid()
      ensures table.lists == Step(old(table.lists), Create(rule, caller, acceptable, freshId), same)
      ensures var r := Completed(rule, caller, if rule.id == "" then freshId else rule.id);
              o.Done? <==> r.id !in old(table.db) && MaySave(old(table.lists), r, caller, acceptable, same)
    {
      var id := if rule.id == "" then freshId else rule.id;
      KnownIsStored(table.db, table.lists, id);
      if rule.id != "" && rule.id in table.db {
        return Conflict;
      }
      var completed := Completed(rule, caller, id);
      o := BeforeSaving(completed, caller, acceptable);
      if o.Done? {
        ConsistentIsUsable(table.db, table.lists);
        ghost var sorted := table.Insert(completed);
      }
    }

    method UpdateFeatureRule(rule: Rule<R>, caller: string, acceptable: bool) returns (o: Outcome)
      requires Valid() && ValidApplicationType(caller)
      modifies table
      ensures Valid()
      ensures table.lists == Step(old(table.lists), Update(rule, caller, acceptable), same)
      ensures o.Done? <==> && rule.id != ""
                           && MaySave(old(table.lists), Completed(rule, caller, rule.id), caller, acceptable, same)
                           && rule.id in old(table.db) && old(table.db)[rule.id].group == caller
    {
      hide Consistent, Clashes, Step, ReplaceIn;
      UpdateOnTable(table.db, table.lists, rule, caller, acceptable, same);
      if rule.id == "" {
        return BadRequest;
      }
      var completed := Completed(rule, caller, rule.id);
      o := BeforeSaving(completed, caller, acceptable);
      if !o.Done? {
        return;
      }
      if completed.id !in table.db {
        return NotFound;
      }
      if table.db[completed.id].group != completed.group {
        return Conflict;
      }
      table.Replace(completed);
    }

    /** Moves the rule to a priority. The position is read from the named rule, but the list is the one
        of the caller's application type. */
    method ChangePriorities(id: string, newPriority: int, caller: string) returns (o: Outcome)
      requires Valid() && ValidApplicationType(caller)
      modifies table
      ensures Valid()
      ensures table.lists == Step(old(table.lists), ChangePriority(id, newPriority, caller), same)
      ensures o == if id !in old(table.db) then NotFound
                   else if old(table.db)[id].priority > |old(table.lists)[caller]| then IndexOutOfRange
                   else Done
    {
      hide Consistent, Step, MoveIn;
      ChangePriorityOnTable(table.db, table.lists, id, newPriority, caller, same);
      if id !in table.db {
        return NotFound;
      }
      var oldPriority := table.db[id].priority;
      var size := table.Size(caller);
      if oldPriority > size {
        return IndexOutOfRange;
      }
      table.Shift(caller, oldPriority, newPriority);
      return Done;
    }

    method DeleteFeatureRule(id: string, caller: string) returns (o: Outcome)
      requires Valid() && ValidApplicationType(caller)
      modifies table
      ensures Valid()
      ensures table.lists == Step(old(table.lists), Delete(id, caller), same)
      ensures o.Done? <==> id in old(table.db) && old(table.db)[id].group == caller
    {
      DeleteOnTable(table.db, table.lists, id, caller, same);
      if id !in table.db {
        return NotFound;
      }
      if table.db[id].group != caller {
        return Forbidden;
      }
      ghost var kept := table.DeleteAndPack(id);
      return Done;
    }

    /** Serves one request. */
    method Serve(request: Request<R>) returns (o: Outcome)
      requires Valid() && ValidApplicationType(request.caller)
      requires request.Create? ==> request.freshId != "" && !Known(table.lists, request.freshId)
      modifies table
      ensures Valid()
      ensures table.lists == Step(old(table.lists), request, same)
    {
      hide Consistent, Step;
      match request
      case Create(rule, caller, acceptable, freshId) =>
        KnownIsStored(table.db, table.lists, freshId);
        o := CreateFeatureRule(rule, caller, acceptable, freshId);
      case Update(rule, caller, acceptable) => o := UpdateFeatureRule(rule, caller, acceptable);
      case ChangePriority(id, newPriority, caller) => o := ChangePriorities(id, newPriority, caller);
      case Delete(id, caller) => o := DeleteFeatureRule(id, caller);
    }

    /** Any run of requests by authorised callers refines the same run on the lists, and leaves every
        application type numbered exactly 1..n. A generated identifier is new when it is generated. */
    method ServeAll(requests: seq<Request<R>>)
      requires Valid() && forall n | 0 <= n < |requests| :: ValidApplicationType(requests[n].caller)
      requires forall n | 0 <= n < |requests| && requests[n].Create? ::
                 requests[n].freshId != "" && !Known(Run(table.lists, requests[..n], same), requests[n].freshId)
      modifies table
      ensures Valid()
      ensures table.lists == Run(old(table.lists), requests, same)
      ensures Dense(table.db, STB, |table.lists[STB]|) && Dense(table.db, RDKCLOUD, |table.lists[RDKCLOUD]|)
    {
      hide Consistent, Step, Known;
      for n := 0 to |requests|
        invariant Valid()
        invariant table.lists == Run(old(table.lists), requests[..n], same)
      {
        assert requests[..n + 1][..n] == requests[..n];
        var o := Serve(requests[n]);
      }
      assert requests[..|requests|] == requests;
      ConsistentIsDense(table.db, table.lists);
    }
  }

  // ---- what the requests promise

  /** A run is its requests one after the other. */
  lemma RunNext<R(!new)>(lists: Lists<Body<R>>, requests: seq<Request<R>>, request: Request<R>, same: (R, R) -> bool)
    ensures Run(lists, [], same) == lists
    ensures Run(lists, requests + [request], same) == Step(Run(lists, requests, same), request, same)
  {
    assert (requests + [request])[..|requests|] == requests;
  }

  /** When a create is accepted, and where the rule ends up: at the place its priority asks for, or last if there
      is no such place. Everything else stays as it is. */
  lemma CreateDoes<R(!new)>(lists: Lists<Body<R>>, rule: Rule<R>, caller: string, acceptable: bool, freshId: string,
      same: (R, R) -> bool)
    ensures var id := if rule.id == "" then freshId else rule.id;
            var accepted :=
              && acceptable && (rule.group == caller || rule.group == "") && caller in lists
              && (forall g, k | g in lists && 0 <= k < |lists[g]| :: lists[g][k].id != id)
              && (forall k | 0 <= k < |lists[caller]| ::
                    lists[caller][k].body.name != rule.body.name && !same(rule.body.rule, lists[caller][k].body.rule));
            var after := Step(lists, Create(rule, caller, acceptable, freshId), same);
            if !accepted then after == lists
            else
              var l := lists[caller];
              var p := if 1 <= rule.priority <= |l| + 1 then rule.priority - 1 else |l|;
              && after.Keys == lists.Keys && (forall g | g in lists && g != caller :: after[g] == lists[g])
              && var n := after[caller];
              |n| == |l| + 1 && n[p] == Entry(id, rule.body) && n[..p] == l[..p] && n[p + 1..] == l[p..]
  {
    hide InsertIn;
    var r := Completed(rule, caller, if rule.id == "" then freshId else rule.id);
    if g, k :| g in lists && 0 <= k < |lists[g]| && lists[g][k].id == r.id {
      assert At(lists, g, k, r.id);
    }
    if r.group in lists {
      InsertTakesPlace(lists[r.group], r);
    }
  }

  /** When an update is accepted, for a rule at index i of the caller's list, and what it leaves: the new version
      at the place its priority asks for, the others in the order they had. */
  lemma UpdateDoes<R(!new)>(lists: Lists<Body<R>>, rule: Rule<R>, caller: string, acceptable: bool,
      same: (R, R) -> bool, i: nat)
    requires caller in lists && i < |lists[caller]| && lists[caller][i].id == rule.id
    requires forall k | 0 <= k < |lists[caller]| && k != i :: lists[caller][k].id != rule.id
    ensures var l := lists[caller];
            var accepted :=
              && acceptable && (rule.group == caller || rule.group == "") && rule.id != ""
              && (forall k | 0 <= k < |l| && k != i ::
                    l[k].body.name != rule.body.name && !same(rule.body.rule, l[k].body.rule));
            var after := Step(lists, Update(rule, caller, acceptable), same);
            if !accepted then after == lists
            else
              var p := if 1 <= rule.priority <= |l| then rule.priority - 1 else |l| - 1;
              && after.Keys == lists.Keys && (forall g | g in lists && g != caller :: after[g] == lists[g])
              && var n := after[caller];
              |n| == |l| && n[p] == Entry(rule.id, rule.body) && n[..p] + n[p + 1..] == l[..i] + l[i + 1..]
  {
    hide ReplaceIn;
    var r := Completed(rule, caller, rule.id);
    assert At(lists, caller, i, rule.id) && forall k: nat :: At(lists, caller, k, rule.id) ==> k == i;
    if r.group == caller {
      ReplaceTakesPlace(lists[caller], i, r);
    }
  }

  /** An update of a rule the caller's list does not hold changes nothing. */
  lemma UpdateOfAbsent<R(!new)>(lists: Lists<Body<R>>, rule: Rule<R>, caller: string, acceptable: bool,
      same: (R, R) -> bool)
    requires caller in lists ==> forall k | 0 <= k < |lists[caller]| :: lists[caller][k].id != rule.id
    ensures Step(lists, Update(rule, caller, acceptable), same) == lists
  {
  }

  /** A priority change takes the rule at the named rule's index out of the caller's list and puts it where the
      priority asks, if the list is that long; otherwise nothing changes. */
  lemma ChangePriorityDoes<R(!new)>(lists: Lists<Body<R>>, g: string, i: nat, id: string, newPriority: int,
      caller: string, same: (R, R) -> bool)
    requires caller in lists && g in lists && i < |lists[g]| && lists[g][i].id == id
    requires forall h, k | h in lists && 0 <= k < |lists[h]| && lists[h][k].id == id :: h == g && k == i
    ensures var l := lists[caller];
            var after := Step(lists, ChangePriority(id, newPriority, caller), same);
            if i >= |l| then after == lists
            else
              var p := if 1 <= newPriority <= |l| then newPriority - 1 else |l| - 1;
              && after.Keys == lists.Keys && (forall h | h in lists && h != caller :: after[h] == lists[h])
              && var n := after[caller];
              |n| == |l| && n[p] == l[i] && n[..p] + n[p + 1..] == l[..i] + l[i + 1..]
  {
    hide MoveIn;
    assert At(lists, g, i, id) && forall h, k: nat :: At(lists, h, k, id) ==> h == g && k == i;
    if i < |lists[caller]| {
      MoveTakesPlace(lists[caller], i, newPriority);
    }
  }

  /** A delete takes the rule out of the caller's list; a rule that is not there changes nothing. */
  lemma DeleteDoes<R(!new)>(lists: Lists<Body<R>>, i: nat, id: string, caller: string, same: (R, R) -> bool)
    requires caller in lists && i <= |lists[caller]|
    requires i < |lists[caller]| ==> lists[caller][i].id == id
    requires forall k | 0 <= k < |lists[caller]| && k != i :: lists[caller][k].id != id
    ensures var l, after := lists[caller], Step(lists, Delete(id, caller), same);
            if i == |l| then after == lists
            else
              && after.Keys == lists.Keys && (forall h | h in lists && h != caller :: after[h] == lists[h])
              && after[caller] == l[..i] + l[i + 1..]
  {
    if i < |lists[caller]| {
      assert At(lists, caller, i, id) && forall k: nat :: At(lists, caller, k, id) ==> k == i;
    }
  }

  /** A priority change or delete of a rule that no list holds changes nothing. */
  lemma UnknownDoesNothing<R(!new)>(lists: Lists<Body<R>>, id: string, newPriority: int, caller: string,
      same: (R, R) -> bool)
    requires forall h, k | h in lists && 0 <= k < |lists[h]| :: lists[h][k].id != id
    ensures Step(lists, ChangePriority(id, newPriority, caller), same) == lists
    ensures Step(lists, Delete(id, caller), same) == lists
  {
  }

  predicate TwoTypes<R>(lists: Lists<Body<R>>) {
    lists.Keys == {STB, RDKCLOUD}
  }

  /** A request changes the list of the caller's application type and no other. */
  lemma {:induction false} OtherTypesUntouched<R(!new)>(lists: Lists<Body<R>>, requests: seq<Request<R>>,
      same: (R, R) -> bool, g: string)
    requires TwoTypes(lists) && g in lists
    requires forall n | 0 <= n < |requests| :: ValidApplicationType(requests[n].caller) && requests[n].caller != g
    ensures TwoTypes(Run(lists, requests, same)) && Run(lists, requests, same)[g] == lists[g]
  {
    if requests != [] {
      OtherTypesUntouched(lists, requests[..|requests| - 1], same, g);
    }
  }

  ghost predicate Unique<R(!new)>(lists: Lists<Body<R>>, same: (R, R) -> bool) {
    forall g | g in lists :: NoClash(lists[g], same)
  }

  lemma StepKeepsUnique<R(!new)>(lists: Lists<Body<R>>, request: Request<R>, same: (R, R) -> bool)
    requires TwoTypes(lists) && ValidApplicationType(request.caller)
    requires Unique(lists, same) && forall a, b :: same(a, b) == same(b, a)
    ensures TwoTypes(Step(lists, request, same)) && Unique(Step(lists, request, same), same)
  {
    hide NoClash, InsertIn, ReplaceIn, RemoveAt, Move;
    match request
    case Create(rule, caller, acceptable, freshId) =>
      var r := Completed(rule, caller, if rule.id == "" then freshId else rule.id);
      if !Known(lists, r.id) && MaySave(lists, r, caller, acceptable, same) {
        forall k: nat | k < |lists[caller]| ensures lists[caller][k].id != r.id {
          assert !At(lists, caller, k, r.id);
        }
        InsertKeepsNoClash(lists[caller], r, same);
      }
    case Update(rule, caller, acceptable) =>
      var r := Completed(rule, caller, rule.id);
      forall i: nat | At(lists, caller, i, r.id) && MaySave(lists, r, caller, acceptable, same)
        ensures NoClash(ReplaceIn(lists[caller], i, r), same)
      {
        ReplaceKeepsNoClash(lists[caller], i, r, same);
      }
    case ChangePriority(id, newPriority, caller) =>
      forall i: nat | i < |lists[caller]| ensures NoClash(MoveIn(lists[caller], i, newPriority), same) {
        MoveKeepsNoClash(lists[caller], i, Clamp(newPriority, |lists[caller]|) - 1, same);
      }
    case Delete(id, caller) =>
      forall i: nat | At(lists, caller, i, id) ensures NoClash(RemoveAt(lists[caller], i), same) {
        RemoveKeepsNoClash(lists[caller], i, same);
      }
  }

  /** Over every run, no application type ever holds two rules with one name or two equal rules. */
  lemma {:induction false} RunKeepsUnique<R(!new)>(lists: Lists<Body<R>>, requests: seq<Request<R>>,
      same: (R, R) -> bool)
    requires TwoTypes(lists) && forall n | 0 <= n < |requests| :: ValidApplicationType(requests[n].caller)
    requires Unique(lists, same) && forall a, b :: same(a, b) == same(b, a)
    ensures TwoTypes(Run(lists, requests, same)) && Unique(Run(lists, requests, same), same)
  {
    hide Unique, Step;
    if requests != [] {
      RunKeepsUnique(lists, requests[..|requests| - 1], same);
      StepKeepsUnique(Run(lists, requests[..|requests| - 1], same), requests[|requests| - 1], same);
    }
  }

  /** The request did not end in an index out of range, and the rule it names, and only that rule, was moved to
      the priority asked for. */
  ghost predicate MovedAsAsked<R>(before: Lists<Body<R>>, after: Lists<Body<R>>, caller: string, g: string, i: nat,
      newPriority: int)
    requires caller in before && g in before && i < |before[g]|
  {
    i < |before[caller]| && after == before[g := MoveIn(before[g], i, newPriority)]
  }

  lemma MoveNowhere<T>(s: seq<T>, i: nat, j: nat)
    requires NoDup(s) && i < |s| && j < |s|
    ensures Move(s, i, j) == s <==> i == j
  {
    MoveAt(s, i, j, j);
    if i == j {
      assert Move(s, i, j) == s;
    }
  }

  lemma TwoUpdates<K, V>(m: map<K, V>, a: K, x: V, b: K, y: V)
    requires a in m && b in m && a != b
    ensures m[a := x] == m[b := y] <==> x == m[a] && y == m[b]
    ensures m[a := x] == m <==> x == m[a]
  {
    assert m[a := x][a] == x && m[b := y][a] == m[a] && m[a := x][b] == m[b];
    if x == m[a] && y == m[b] {
      assert m[a := x] == m && m[b := y] == m;
    }
    if x == m[a] {
      assert m[a := x] == m;
    }
  }

  /** A priority change is carried out on the caller's own list, at the position of the named rule. It
      does what it says exactly when the rule is of the caller's type, or when nothing was to move:
      the rule already stands where it should, and so does the rule at that position of the caller's list. */
  lemma ChangePriorityExact<R(!new)>(lists: Lists<Body<R>>, g: string, i: nat, id: string, newPriority: int,
      caller: string, same: (R, R) -> bool)
    requires TwoTypes(lists) && ValidApplicationType(caller) && OnlyAt(lists, g, i, id)
    requires NoDup(lists[caller]) && At(lists, g, i, id) && NoDup(lists[g])
    ensures var n, m := |lists[g]|, |lists[caller]|;
            var after := Step(lists, ChangePriority(id, newPriority, caller), same);
            MovedAsAsked(lists, after, caller, g, i, newPriority) <==>
            g == caller || (i < m && Clamp(newPriority, n) == i + 1 && Clamp(newPriority, m) == i + 1)
  {
    hide NoDup, Move;
    var here := MoveIn(lists[g], i, newPriority);
    MoveNowhere(lists[g], i, Clamp(newPriority, |lists[g]|) - 1);
    var after := Step(lists, ChangePriority(id, newPriority, caller), same);
    if i < |lists[caller]| {
      assert after == lists[caller := MoveIn(lists[caller], i, newPriority)];
      MoveNowhere(lists[caller], i, Clamp(newPriority, |lists[caller]|) - 1);
      if g != caller {
        TwoUpdates(lists, g, here, caller, MoveIn(lists[caller], i, newPriority));
      }
    }
  }

  /** An input: a caller of one type moves a rule of the other, and reorders its own type instead. */
  lemma WrongTypeReordered<R(!new)>(a: Body<R>, b: Body<R>, c: Body<R>, d: Body<R>, same: (R, R) -> bool)
    ensures var lists := map[STB := [Entry("a", a), Entry("b", b)], RDKCLOUD := [Entry("c", c), Entry("d", d)]];
            var after := Step(lists, ChangePriority("c", 2, STB), same);
            && after == lists[STB := [Entry("b", b), Entry("a", a)]]
            && !MovedAsAsked(lists, after, STB, RDKCLOUD, 0, 2)
  {
    var lists := map[STB := [Entry("a", a), Entry("b", b)], RDKCLOUD := [Entry("c", c), Entry("d", d)]];
    assert STB != RDKCLOUD by {
      assert |STB| != |RDKCLOUD|;
    }
    forall g, k: nat ensures At(lists, g, k, "c") <==> g == RDKCLOUD && k == 0 {
    }
    assert At(lists, RDKCLOUD, 0, "c");
    assert MoveIn(lists[STB], 0, 2) == [Entry("b", b), Entry("a", a)];
    assert MoveIn(lists[RDKCLOUD], 0, 2)[1] == Entry("c", c);
    assert Step(lists, ChangePriority("c", 2, STB), same)[RDKCLOUD] == lists[RDKCLOUD];
  }

  /** Moving a rule of one's own type and moving it back to where it was restores every list. */
  lemma ChangePriorityAndBack<R(!new)>(lists: Lists<Body<R>>, caller: string, i: nat, id: string, newPriority: int,
      same: (R, R) -> bool)
    requires TwoTypes(lists) && At(lists, caller, i, id) && OnlyAt(lists, caller, i, id)
    ensures var moved := Step(lists, ChangePriority(id, newPriority, caller), same);
            Step(moved, ChangePriority(id, i + 1, caller), same) == lists
  {
    var l := lists[caller];
    var p := Clamp(newPriority, |l|) - 1;
    var moved := lists[caller := MoveIn(l, i, newPriority)];
    MoveAndBack(l, i, p);
    forall g, k: nat ensures At(moved, g, k, id) <==> g == caller && k == p {
      if g == caller && k < |l| {
        MoveAt(l, i, p, k);
        assert At(lists, caller, Source(i, p, k), id) <==> Source(i, p, k) == i;
        SourceInverse(i, p, k);
      } else {
        assert At(moved, g, k, id) ==> At(lists, g, k, id);
      }
    }
    assert Step(lists, ChangePriority(id, newPriority, caller), same) == moved;
    assert At(moved, caller, p, id);
    assert Step(moved, ChangePriority(id, i + 1, caller), same) == moved[caller := MoveIn(moved[caller], p, i + 1)];
    assert moved[caller := l] == lists;
  }

  lemma InsertThenRemove<T>(s: seq<T>, j: nat, x: T)
    requires j <= |s|
    ensures RemoveAt(InsertAt(s, j, x), j) == s
  {
  }

  /** Deleting a rule that was just created restores every list, whatever place the rule took. */
  lemma CreateThenDelete<R(!new)>(lists: Lists<Body<R>>, rule: Rule<R>, caller: string, acceptable: bool,
      freshId: string, same: (R, R) -> bool)
    requires var r := Completed(rule, caller, if rule.id == "" then freshId else rule.id);
             !Known(lists, r.id) && MaySave(lists, r, caller, acceptable, same)
    ensures var r := Completed(rule, caller, if rule.id == "" then freshId else rule.id);
            Step(Step(lists, Create(rule, caller, acceptable, freshId), same), Delete(r.id, caller), same) == lists
  {
    hide Clashes;
    var r := Completed(rule, caller, if rule.id == "" then freshId else rule.id);
    var l := lists[caller];
    var j: nat := Clamp(r.priority, |l| + 1) - 1;
    var created := lists[caller := InsertIn(l, r)];
    assert Step(lists, Create(rule, caller, acceptable, freshId), same) == created;
    forall i: nat ensures At(created, caller, i, r.id) <==> i == j {
      if i < |l| + 1 && i != j {
        assert !At(lists, caller, if i < j then i else i - 1, r.id);
      }
    }
    InsertThenRemove(l, j, Entry(r.id, r.body));
    assert At(created, caller, j, r.id) && created[caller] == InsertIn(l, r);
    assert Step(created, Delete(r.id, caller), same) == created[caller := RemoveAt(created[caller], j)];
  }
}
