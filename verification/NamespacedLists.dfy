/** Namespaced lists (address lists that rules refer to by identifier): creating, renaming and deleting
    them without leaving a rule or feature behind that names a list which is gone, and adding and removing
    their items. */
module NamespacedLists {
  import opened Basics

  datatype TableName =
    | DCM_RULE | FIRMWARE_RULE | FIRMWARE_RULE_TEMPLATE | TELEMETRY_RULES | TELEMETRY_TWO_RULES
    | FEATURE_CONTROL_RULE | SETTING_RULES

  const RULE_TABLES := [DCM_RULE, FIRMWARE_RULE, FIRMWARE_RULE_TEMPLATE, TELEMETRY_RULES, TELEMETRY_TWO_RULES,
                        FEATURE_CONTROL_RULE, SETTING_RULES]

  const IN_LIST := "IN_LIST"
  const ENV_MODEL_RULE := "ENV_MODEL_RULE"
  const MAC_LIST := "MAC_LIST"

  datatype Condition = Condition(freeArg: string, operation: string, fixedArg: string)

  /** A rule of any table. The type and the whitelist of its action matter for firmware rules only. */
  datatype XRule = XRule(name: string, conditions: seq<Condition>, ruleType: string, whitelist: string)

  datatype Feature = Feature(name: string, whitelisted: bool, whitelistValue: Option<string>)

  datatype NamespacedList = NamespacedList(id: string, typeName: string, data: seq<string>)

  datatype State = State(
    rules: map<TableName, map<string, XRule>>, features: map<string, Feature>, lists: map<string, NamespacedList>)

  /** Checks of the surrounding library. */
  datatype Library = Library(
    valid: NamespacedList -> bool,
    validItems: (string, seq<string>) -> bool,
    noIntersection: (string, set<string>) -> bool,
    normalizedMac: string -> Option<string>)

  predicate WellFormed(s: State) {
    && (forall t: TableName :: t in s.rules)
    && forall k | k in s.lists :: s.lists[k].id == k
  }

  // ---- who names a list

  predicate Refers(c: Condition, id: string) {
    c.operation == IN_LIST && c.fixedArg == id
  }

  predicate NamedInConditions(r: XRule, id: string) {
    exists i | 0 <= i < |r.conditions| :: Refers(r.conditions[i], id)
  }

  predicate NamedAsWhitelist(t: TableName, r: XRule, id: string) {
    t == FIRMWARE_RULE && r.ruleType == ENV_MODEL_RULE && r.whitelist == id
  }

  predicate NamedByFeature(f: Feature, id: string) {
    f.whitelisted && f.whitelistValue == Some(id)
  }

  ghost predicate InConditions(s: State, id: string)
    requires WellFormed(s)
  {
    exists t: TableName, k | k in s.rules[t] :: NamedInConditions(s.rules[t][k], id)
  }

  ghost predicate AsWhitelist(s: State, id: string)
    requires WellFormed(s)
  {
    exists t: TableName, k | k in s.rules[t] :: NamedAsWhitelist(t, s.rules[t][k], id)
  }

  ghost predicate InFeatures(s: State, id: string) {
    exists k | k in s.features :: NamedByFeature(s.features[k], id)
  }

  ghost predicate Used(s: State, id: string)
    requires WellFormed(s)
  {
    InConditions(s, id) || AsWhitelist(s, id) || InFeatures(s, id)
  }

  /** The name is in use and there is no such list. */
  ghost predicate Dangles(s: State, id: string)
    requires WellFormed(s)
  {
    Used(s, id) && id !in s.lists
  }

  /** No name dangles. Blanks stand where no list has been chosen and do not count as names. */
  ghost predicate Resolving(s: State)
    requires WellFormed(s)
  {
    forall id | !Blank(id) :: !Dangles(s, id)
  }

  // ---- renaming references

  function RenamedCondition(c: Condition, was: string, now: string): Condition {
    if Refers(c, was) then c.(fixedArg := now) else c
  }

  function RenamedRule(r: XRule, was: string, now: string): XRule {
    var cs := r.conditions;
    r.(conditions := seq(|cs|, i requires 0 <= i < |cs| => RenamedCondition(cs[i], was, now)))
  }

  function RenamedFeature(f: Feature, was: string, now: string): Feature {
    if NamedByFeature(f, was) then f.(whitelistValue := Some(now)) else f
  }

  function RenamedTable(m: map<string, XRule>, was: string, now: string): map<string, XRule> {
    map k | k in m :: RenamedRule(m[k], was, now)
  }

  function RenamedFeatures(m: map<string, Feature>, was: string, now: string): map<string, Feature> {
    map k | k in m :: RenamedFeature(m[k], was, now)
  }

  function RenamedReferences(s: State, was: string, now: string): State {
    s.(rules := map t | t in s.rules :: RenamedTable(s.rules[t], was, now),
       features := RenamedFeatures(s.features, was, now))
  }

  /** A rename on its way: the tables, and the rules of one table, that have been dealt with. */
  ghost function TablesRenamed(rules: map<TableName, map<string, XRule>>, done: seq<TableName>, was: string,
      now: string):
    map<TableName, map<string, XRule>>
  {
    map t | t in rules :: if t in done then RenamedTable(rules[t], was, now) else rules[t]
  }

  ghost function RulesRenamed(m: map<string, XRule>, done: seq<string>, was: string, now: string): map<string, XRule> {
    map k | k in m :: if k in done then RenamedRule(m[k], was, now) else m[k]
  }

  lemma OneMoreTable(rules: map<TableName, map<string, XRule>>, n: nat, was: string, now: string)
    requires n < |RULE_TABLES| && forall t: TableName :: t in rules
    ensures var done, t := TablesRenamed(rules, RULE_TABLES[..n], was, now), RULE_TABLES[n];
            done[t] == rules[t] &&
            TablesRenamed(rules, RULE_TABLES[..n + 1], was, now) == done[t := RenamedTable(rules[t], was, now)]
  {
    hide RenamedTable;
    assert RULE_TABLES[..n + 1] == RULE_TABLES[..n] + [RULE_TABLES[n]];
    AllTables();
  }

  lemma OneMoreRule(m: map<string, XRule>, keys: seq<string>, n: nat, was: string, now: string)
    requires n < |keys| && NoDup(keys) && (forall k | k in keys :: k in m)
    ensures var done, k := RulesRenamed(m, keys[..n], was, now), keys[n];
            done[k] == m[k] &&
            RulesRenamed(m, keys[..n + 1], was, now) ==
            (if NamedInConditions(m[k], was) then done[k := RenamedRule(m[k], was, now)] else done)
  {
    var done, k := RulesRenamed(m, keys[..n], was, now), keys[n];
    assert keys[..n + 1] == keys[..n] + [k] && k !in keys[..n];
    var renamed := RulesRenamed(m, keys[..n + 1], was, now);
    assert renamed == done[k := RenamedRule(m[k], was, now)];
    if !NamedInConditions(m[k], was) {
      assert RenamedRule(m[k], was, now).conditions == m[k].conditions;
      assert done[k := m[k]] == done;
    }
  }

  lemma FeaturesRenamedOnce(m: map<string, Feature>, was: string, now: string)
    requires was != now
    ensures RenamedFeatures(RenamedFeatures(m, was, now), was, now) == RenamedFeatures(m, was, now)
  {
  }

  // ---- requests

  /** EditRule and EditFeature are edits of rules and features, made elsewhere: a new version, or a removal. */
  datatype Request =
    | Create(list: NamespacedList, updateIfExists: bool)
    | Update(list: NamespacedList, newId: string)
    | Delete(typeName: string, id: string)
    | AddData(typeName: string, id: string, items: seq<string>)
    | RemoveData(typeName: string, id: string, items: seq<string>)
    | EditRule(table: TableName, key: string, rule: Option<XRule>)
    | EditFeature(key: string, feature: Option<Feature>)

  predicate Renames(r: Request) {
    r.Update? && !Blank(r.newId) && r.newId != r.list.id
  }

  predicate Holds(s: State, typeName: string, id: string) {
    id in s.lists && s.lists[id].typeName == typeName
  }

  /** The items in their stored form; None when one is not a MAC address. */
  function Normalized(lib: Library, typeName: string, items: seq<string>): (r: Option<seq<string>>)
    ensures r.Some? ==> |r.value| == |items|
  {
    if typeName != MAC_LIST then Some(items)
    else if items == [] then Some([])
    else
      var front, last := Normalized(lib, typeName, items[..|items| - 1]), lib.normalizedMac(items[|items| - 1]);
      if front.Some? && last.Some? then Some(front.value + [last.value]) else None
  }

  lemma {:induction false} PrefixNormalizes(lib: Library, typeName: string, items: seq<string>, n: nat)
    requires n <= |items| && Normalized(lib, typeName, items).Some?
    ensures Normalized(lib, typeName, items[..n]) == Some(Normalized(lib, typeName, items).value[..n])
    decreases |items|
  {
    if n < |items| {
      if typeName == MAC_LIST {
        PrefixNormalizes(lib, typeName, items[..|items| - 1], n);
        var front := Normalized(lib, typeName, items[..|items| - 1]).value;
        assert items[..|items| - 1][..n] == items[..n];
        assert Normalized(lib, typeName, items).value[..n] == front[..n];
      }
    } else {
      var all := Normalized(lib, typeName, items).value;
      assert items[..n] == items && all[..n] == all;
    }
  }

  function Items(s: seq<string>): set<string> {
    set x | x in s
  }

  predicate MayStore(lib: Library, list: NamespacedList) {
    lib.valid(list) && Normalized(lib, list.typeName, list.data).Some?
  }

  predicate MayEdit(lib: Library, s: State, typeName: string, id: string, items: seq<string>) {
    id != "" && lib.validItems(typeName, items) && Holds(s, typeName, id) && Normalized(lib, typeName, items).Some?
  }

  ghost predicate Accepted(lib: Library, s: State, r: Request)
    requires WellFormed(s)
  {
    match r
    case Create(list, updateIfExists) => MayStore(lib, list) && (updateIfExists || !Holds(s, list.typeName, list.id))
    case Update(list, newId) =>
      MayStore(lib, list) && if Renames(r) then !Holds(s, list.typeName, newId) else Holds(s, list.typeName, list.id)
    case Delete(typeName, id) =>
      id in s.lists && (typeName == "" || s.lists[id].typeName == typeName) && !Used(s, id)
    case AddData(typeName, id, items) =>
      MayEdit(lib, s, typeName, id, items) &&
      lib.noIntersection(typeName, Items(s.lists[id].data) + Items(Normalized(lib, typeName, items).value))
    case RemoveData(typeName, id, items) =>
      MayEdit(lib, s, typeName, id, items) &&
      var gone := Normalized(lib, typeName, items).value;
      NoDup(gone) && Items(gone) < Items(s.lists[id].data)
    case EditRule(_, _, _) => true
    case EditFeature(_, _) => true
  }

  function Edited<V>(m: map<string, V>, k: string, v: Option<V>): map<string, V> {
    if v.Some? then m[k := v.value] else m - {k}
  }

  function Put(s: State, list: NamespacedList): State {
    s.(lists := s.lists[list.id := list])
  }

  /** `after` is `s` with other items in one list. */
  ghost predicate Holding(after: State, s: State, id: string, data: set<string>)
    requires id in s.lists
  {
    && id in after.lists
    && after == s.(lists := s.lists[id := s.lists[id].(data := after.lists[id].data)])
    && NoDup(after.lists[id].data) && Items(after.lists[id].data) == data
  }

  /** What an accepted request does. */
  ghost predicate Effect(lib: Library, s: State, r: Request, after: State)
    requires WellFormed(s) && Accepted(lib, s, r)
  {
    match r
    case Create(list, _) => after == Put(s, list.(data := Normalized(lib, list.typeName, list.data).value))
    case Update(list, newId) =>
      var stored := list.(data := Normalized(lib, list.typeName, list.data).value);
      if Renames(r) then
        var renamed := RenamedReferences(s, list.id, newId);
        after == Put(renamed.(lists := renamed.lists - {list.id}), stored.(id := newId))
      else
        after == Put(s, stored)
    case Delete(_, id) => after == s.(lists := s.lists - {id})
    case AddData(typeName, id, items) =>
      Holding(after, s, id, Items(s.lists[id].data) + Items(Normalized(lib, typeName, items).value))
    case RemoveData(typeName, id, items) =>
      Holding(after, s, id, Items(s.lists[id].data) - Items(Normalized(lib, typeName, items).value))
    case EditRule(t, k, rule) => after == s.(rules := s.rules[t := Edited(s.rules[t], k, rule)])
    case EditFeature(k, feature) => after == s.(features := Edited(s.features, k, feature))
  }

  ghost predicate Stepped(lib: Library, s: State, r: Request, after: State)
    requires WellFormed(s)
  {
    if Accepted(lib, s, r) then Effect(lib, s, r, after) else after == s
  }

  // ---- what the requests promise

  /** The items as they are stored, position by position: MAC addresses normalised, others as they come. */
  ghost predicate StoredForm(lib: Library, typeName: string, items: seq<string>, data: seq<string>) {
    && |data| == |items|
    && forall i | 0 <= i < |items| ::
         if typeName == MAC_LIST then lib.normalizedMac(items[i]) == Some(data[i]) else data[i] == items[i]
  }

  /** No item is to be normalised that cannot be. */
  ghost predicate Storable(lib: Library, typeName: string, items: seq<string>) {
    typeName == MAC_LIST ==> forall x | x in items :: lib.normalizedMac(x).Some?
  }

  lemma {:induction false} NormalizedIs(lib: Library, typeName: string, items: seq<string>)
    ensures Normalized(lib, typeName, items).Some? <==> Storable(lib, typeName, items)
    ensures Normalized(lib, typeName, items).Some? ==>
              StoredForm(lib, typeName, items, Normalized(lib, typeName, items).value)
  {
    if typeName == MAC_LIST && items != [] {
      var n := |items| - 1;
      NormalizedIs(lib, typeName, items[..n]);
      assert items == items[..n] + [items[n]];
    }
  }

  lemma OneStoredForm(lib: Library, typeName: string, items: seq<string>, data: seq<string>)
    requires StoredForm(lib, typeName, items, data)
    ensures Storable(lib, typeName, items) && Normalized(lib, typeName, items) == Some(data)
  {
    NormalizedIs(lib, typeName, items);
    hide Normalized;
    assert Storable(lib, typeName, items);
    assert Normalized(lib, typeName, items).value == data;
  }

  /** A list is stored under an identifier, and all others are as before. */
  ghost predicate StoredUnder(lib: Library, s: State, after: State, id: string, list: NamespacedList) {
    && id in after.lists && after.lists[id].id == id && after.lists[id].typeName == list.typeName
    && StoredForm(lib, list.typeName, list.data, after.lists[id].data)
    && forall k | k != id && k != list.id :: (k in after.lists <==> k in s.lists) &&
         (k in s.lists ==> after.lists[k] == s.lists[k])
  }

  lemma CreateStores(lib: Library, s: State, list: NamespacedList, updateIfExists: bool, after: State)
    requires WellFormed(s) && Stepped(lib, s, Create(list, updateIfExists), after)
    ensures var ok :=
              && lib.valid(list) && Storable(lib, list.typeName, list.data)
              && (updateIfExists || list.id !in s.lists || s.lists[list.id].typeName != list.typeName);
            && (Accepted(lib, s, Create(list, updateIfExists)) <==> ok)
            && if ok then
                 StoredUnder(lib, s, after, list.id, list) && after.rules == s.rules && after.features == s.features
               else after == s
  {
    NormalizedIs(lib, list.typeName, list.data);
    hide Normalized, Storable, StoredForm;
  }

  /** An update of a list that keeps its identifier. */
  lemma UpdateStores(lib: Library, s: State, list: NamespacedList, newId: string, after: State)
    requires WellFormed(s) && Stepped(lib, s, Update(list, newId), after)
    requires Blank(newId) || newId == list.id
    ensures var ok :=
              && lib.valid(list) && Storable(lib, list.typeName, list.data)
              && list.id in s.lists && s.lists[list.id].typeName == list.typeName;
            && (Accepted(lib, s, Update(list, newId)) <==> ok)
            && if ok then
                 StoredUnder(lib, s, after, list.id, list) && after.rules == s.rules && after.features == s.features
               else after == s
  {
    NormalizedIs(lib, list.typeName, list.data);
    hide Normalized, Storable, StoredForm;
  }

  /** In every table each rule has the conditions it had, but for those that looked for the old list; in the
      features the same. */
  ghost predicate NamesMoved(s: State, after: State, was: string, now: string)
    requires WellFormed(s) && WellFormed(after)
  {
    && (forall t: TableName :: after.rules[t].Keys == s.rules[t].Keys)
    && (forall t: TableName, k | k in s.rules[t] :: ConditionsMoved(s.rules[t][k], after.rules[t][k], was, now))
    && after.features.Keys == s.features.Keys
    && forall k | k in s.features ::
         var f := s.features[k];
         after.features[k] ==
         if f.whitelisted && f.whitelistValue == Some(was) then Feature(f.name, true, Some(now)) else f
  }

  ghost predicate ConditionsMoved(r: XRule, after: XRule, was: string, now: string) {
    && (after.name, after.ruleType, after.whitelist) == (r.name, r.ruleType, r.whitelist)
    && |after.conditions| == |r.conditions|
    && forall i | 0 <= i < |r.conditions| ::
         var c := r.conditions[i];
         after.conditions[i] ==
         if c.operation == "IN_LIST" && c.fixedArg == was then Condition(c.freeArg, c.operation, now) else c
  }

  /** A rename: the old identifier is gone, the new one holds what was submitted, and whoever named the old list in
      a condition or a feature names the new one. That the old list exists is not asked. */
  lemma RenameStores(lib: Library, s: State, list: NamespacedList, newId: string, after: State)
    requires WellFormed(s) && Stepped(lib, s, Update(list, newId), after)
    requires !Blank(newId) && newId != list.id
    ensures var ok :=
              && lib.valid(list) && Storable(lib, list.typeName, list.data)
              && (newId !in s.lists || s.lists[newId].typeName != list.typeName);
            && (Accepted(lib, s, Update(list, newId)) <==> ok)
            && if ok then
                 && StoredUnder(lib, s, after, newId, list) && list.id !in after.lists
                 && WellFormed(after) && NamesMoved(s, after, list.id, newId)
               else after == s
  {
    NormalizedIs(lib, list.typeName, list.data);
    ReferencesMove(s, list.id, newId);
    hide Normalized, Storable, StoredForm, RenamedTable, RenamedFeatures, ConditionsMoved;
  }

  lemma ReferencesMove(s: State, was: string, now: string)
    requires WellFormed(s)
    ensures var after := RenamedReferences(s, was, now);
            WellFormed(after) && NamesMoved(s, after, was, now) && after.lists == s.lists
  {
    var after := RenamedReferences(s, was, now);
    forall t: TableName, k | k in s.rules[t] ensures ConditionsMoved(s.rules[t][k], after.rules[t][k], was, now) {
    }
  }

  /** A delete is refused as long as a condition, the whitelist of an environment-model firmware rule, or a
      whitelisted feature names the list. */
  lemma DeleteRemoves(lib: Library, s: State, typeName: string, id: string, after: State)
    requires WellFormed(s) && Stepped(lib, s, Delete(typeName, id), after)
    ensures var ok :=
              && id in s.lists && (typeName == "" || s.lists[id].typeName == typeName)
              && (forall t: TableName, k, i | k in s.rules[t] && 0 <= i < |s.rules[t][k].conditions| ::
                    var c := s.rules[t][k].conditions[i];
                    !(c.operation == "IN_LIST" && c.fixedArg == id))
              && (forall k | k in s.rules[FIRMWARE_RULE] ::
                    var r := s.rules[FIRMWARE_RULE][k];
                    !(r.ruleType == "ENV_MODEL_RULE" && r.whitelist == id))
              && (forall k | k in s.features ::
                    !(s.features[k].whitelisted && s.features[k].whitelistValue == Some(id)));
            && (Accepted(lib, s, Delete(typeName, id)) <==> ok)
            && after == if ok then State(s.rules, s.features, s.lists - {id}) else s
  {
    if t: TableName, k, i :| k in s.rules[t] && 0 <= i < |s.rules[t][k].conditions| &&
                             Refers(s.rules[t][k].conditions[i], id) {
      assert NamedInConditions(s.rules[t][k], id) && InConditions(s, id);
    }
    if k :| k in s.rules[FIRMWARE_RULE] && NamedAsWhitelist(FIRMWARE_RULE, s.rules[FIRMWARE_RULE][k], id) {
      assert AsWhitelist(s, id);
    }
  }

  /** Nothing but the items of one list may differ; each of them stands there once. */
  ghost predicate OnlyItems(s: State, after: State, id: string) {
    && id in s.lists && id in after.lists && after.lists.Keys == s.lists.Keys
    && (forall k | k in s.lists && k != id :: after.lists[k] == s.lists[k])
    && (after.lists[id].id, after.lists[id].typeName) == (s.lists[id].id, s.lists[id].typeName)
    && NoDup(after.lists[id].data) && after.rules == s.rules && after.features == s.features
  }

  lemma AddDataDoes(lib: Library, s: State, typeName: string, id: string, items: seq<string>, novel: seq<string>,
      after: State)
    requires WellFormed(s) && Stepped(lib, s, AddData(typeName, id, items), after)
    requires StoredForm(lib, typeName, items, novel)
    ensures var ok :=
              && id != "" && lib.validItems(typeName, items) && id in s.lists && s.lists[id].typeName == typeName
              && lib.noIntersection(typeName, set x | x in s.lists[id].data + novel);
            && (Accepted(lib, s, AddData(typeName, id, items)) <==> ok)
            && if ok then
                 && OnlyItems(s, after, id)
                 && forall x :: x in after.lists[id].data <==> x in s.lists[id].data || x in novel
               else after == s
  {
    OneStoredForm(lib, typeName, items, novel);
    hide Normalized, StoredForm;
    if id in s.lists {
      assert Items(s.lists[id].data) + Items(novel) == set x | x in s.lists[id].data + novel;
    }
    if Accepted(lib, s, AddData(typeName, id, items)) {
      HoldingIs(s, after, id, Items(s.lists[id].data) + Items(novel));
    }
  }

  /** Every item to remove must be in the list, and be named once, and something must be left. */
  lemma RemoveDataDoes(lib: Library, s: State, typeName: string, id: string, items: seq<string>, gone: seq<string>,
      after: State)
    requires WellFormed(s) && Stepped(lib, s, RemoveData(typeName, id, items), after)
    requires StoredForm(lib, typeName, items, gone)
    ensures var ok :=
              && id != "" && lib.validItems(typeName, items) && id in s.lists && s.lists[id].typeName == typeName
              && NoDup(gone) && (forall x | x in gone :: x in s.lists[id].data)
              && (exists x | x in s.lists[id].data :: x !in gone);
            && (Accepted(lib, s, RemoveData(typeName, id, items)) <==> ok)
            && if ok then
                 && OnlyItems(s, after, id)
                 && forall x :: x in after.lists[id].data <==> x in s.lists[id].data && x !in gone
               else after == s
  {
    OneStoredForm(lib, typeName, items, gone);
    hide Normalized, StoredForm;
    if id in s.lists {
      ProperPart(gone, s.lists[id].data);
    }
    if Accepted(lib, s, RemoveData(typeName, id, items)) {
      HoldingIs(s, after, id, Items(s.lists[id].data) - Items(gone));
    }
  }

  lemma ProperPart(part: seq<string>, whole: seq<string>)
    ensures Items(part) < Items(whole) <==> (forall x | x in part :: x in whole) && exists x | x in whole :: x !in part
  {
    assert forall x :: (x in Items(part) <==> x in part) && (x in Items(whole) <==> x in whole);
    if (forall x | x in part :: x in whole) && !exists x | x in whole :: x !in part {
      assert Items(part) == Items(whole);
    }
  }

  lemma HoldingIs(s: State, after: State, id: string, data: set<string>)
    requires id in s.lists && Holding(after, s, id, data)
    ensures OnlyItems(s, after, id) && forall x :: x in after.lists[id].data <==> x in data
  {
    assert forall x :: x in after.lists[id].data <==> x in Items(after.lists[id].data);
  }

  /** A MAC address list takes no item that is not a MAC address. */
  lemma BadItemsAreRefused(lib: Library, s: State, id: string, items: seq<string>, added: State, removed: State)
    requires WellFormed(s) && Stepped(lib, s, AddData(MAC_LIST, id, items), added)
    requires Stepped(lib, s, RemoveData(MAC_LIST, id, items), removed)
    requires exists x | x in items :: lib.normalizedMac(x).None?
    ensures added == removed == s
  {
    NormalizedIs(lib, MAC_LIST, items);
    hide Normalized;
  }

  lemma EditsDo(lib: Library, s: State, t: TableName, k: string, rule: Option<XRule>, feature: Option<Feature>,
      afterRule: State, afterFeature: State)
    requires WellFormed(s) && Stepped(lib, s, EditRule(t, k, rule), afterRule)
    requires Stepped(lib, s, EditFeature(k, feature), afterFeature)
    ensures afterRule.lists == s.lists && afterRule.features == s.features && afterRule.rules.Keys == s.rules.Keys
    ensures forall u: TableName | u != t :: afterRule.rules[u] == s.rules[u]
    ensures afterRule.rules[t] == match rule case Some(x) => s.rules[t][k := x] case None => s.rules[t] - {k}
    ensures afterFeature.lists == s.lists && afterFeature.rules == s.rules
    ensures afterFeature.features == match feature case Some(f) => s.features[k := f] case None => s.features - {k}
  {
  }

  // ---- the service

  class NamespacedListService {
    var rules: map<TableName, map<string, XRule>>
    var features: map<string, Feature>
    var lists: map<string, NamespacedList>
    const lib: Library

    constructor (lib: Library)
      ensures this.lib == lib && WellFormed(Stores())
      ensures Stores() == State(map t | t in RULE_TABLES :: map[], map[], map[])
    {
      this.lib := lib;
      rules, features, lists := map t | t in RULE_TABLES :: map[], map[], map[];
      new;
      AllTables();
    }

    ghost function Stores(): State
      reads this
    {
      State(rules, features, lists)
    }

    method NormalizeAll(typeName: string, items: seq<string>) returns (r: Option<seq<string>>)
      ensures r == Normalized(lib, typeName, items)
    {
      if typeName != MAC_LIST {
        return Some(items);
      }
      var done := [];
      for i := 0 to |items|
        invariant Normalized(lib, typeName, items[..i]) == Some(done)
      {
        var mac := lib.normalizedMac(items[i]);
        assert items[..i + 1][..i] == items[..i];
        if mac == None {
          if Normalized(lib, typeName, items).Some? {
            PrefixNormalizes(lib, typeName, items, i + 1);
          }
          return None;
        }
        done := done + [mac.value];
      }
      assert items[..|items|] == items;
      return Some(done);
    }

    method CreateNamespacedList(list: NamespacedList, updateIfExists: bool) returns (ok: bool)
      requires WellFormed(Stores())
      modifies this
      ensures WellFormed(Stores()) && ok == Accepted(lib, old(Stores()), Create(list, updateIfExists))
      ensures Stepped(lib, old(Stores()), Create(list, updateIfExists), Stores())
    {
      if !lib.valid(list) {
        return false;
      }
      var data := NormalizeAll(list.typeName, list.data);
      if data == None {
        return false;
      }
      if !updateIfExists {
        if list.id in lists && lists[list.id].typeName == list.typeName {
          return false;
        }
      }
      lists := lists[list.id := list.(data := data.value)];
      return true;
    }

    method UpdateNamespacedList(list: NamespacedList, newId: string) returns (ok: bool)
      requires WellFormed(Stores())
      modifies this
      ensures WellFormed(Stores()) && ok == Accepted(lib, old(Stores()), Update(list, newId))
      ensures Stepped(lib, old(Stores()), Update(list, newId), Stores())
    {
      if !lib.valid(list) {
        return false;
      }
      var data := NormalizeAll(list.typeName, list.data);
      if data == None {
        return false;
      }
      var stored := list.(data := data.value);
      if !Blank(newId) && newId != list.id {
        if newId in lists && lists[newId].typeName == list.typeName {
          return false;
        }
        RenameInUsedEntities(list.id, newId);
        lists := lists - {list.id};
        stored := stored.(id := newId);
      } else {
        if !(list.id in lists && lists[list.id].typeName == list.typeName) {
          return false;
        }
      }
      lists := lists[stored.id := stored];
      return true;
    }

    method RenameInUsedEntities(was: string, now: string)
      requires WellFormed(Stores()) && was != now
      modifies this`rules, this`features
      ensures Stores() == RenamedReferences(old(Stores()), was, now)
    {
      hide RenamedTable, RenamedFeatures;
      for n := 0 to |RULE_TABLES|
        invariant lists == old(lists) && rules == TablesRenamed(old(rules), RULE_TABLES[..n], was, now)
        invariant features == if n == 0 then old(features) else RenamedFeatures(old(features), was, now)
      {
        OneMoreTable(old(rules), n, was, now);
        FeaturesRenamedOnce(old(features), was, now);
        RenameInTable(RULE_TABLES[n], was, now);
        RenameInFeatures(was, now);
      }
      AllTables();
    }

    method RenameInTable(t: TableName, was: string, now: string)
      requires t in rules
      modifies this`rules
      ensures rules == old(rules)[t := RenamedTable(old(rules)[t], was, now)]
    {
      ghost var before := rules[t];
      var keys := ListKeys(rules[t]);
      assert RulesRenamed(before, keys[..0], was, now) == before;
      for n := 0 to |keys|
        invariant rules == old(rules)[t := RulesRenamed(before, keys[..n], was, now)]
      {
        OneMoreRule(before, keys, n, was, now);
        var rule := rules[t][keys[n]];
        if NamedInConditions(rule, was) {
          rules := rules[t := rules[t][keys[n] := RenamedRule(rule, was, now)]];
        }
      }
      assert RulesRenamed(before, keys, was, now) == RenamedTable(before, was, now);
      assert keys[..|keys|] == keys;
    }

    method RenameInFeatures(was: string, now: string)
      modifies this`features
      ensures features == RenamedFeatures(old(features), was, now)
    {
      var keys := ListKeys(features);
      for n := 0 to |keys|
        invariant features.Keys == old(features).Keys
        invariant forall k | k in features ::
            features[k] == if k in keys[..n] then RenamedFeature(old(features)[k], was, now) else old(features)[k]
      {
        if NamedByFeature(features[keys[n]], was) {
          features := features[keys[n] := features[keys[n]].(whitelistValue := Some(now))];
        }
      }
    }

    method DeleteNamespacedList(typeName: string, id: string) returns (ok: bool)
      requires WellFormed(Stores())
      modifies this`lists
      ensures WellFormed(Stores()) && ok == Accepted(lib, old(Stores()), Delete(typeName, id))
      ensures Stepped(lib, old(Stores()), Delete(typeName, id), Stores())
    {
      if id !in lists || (typeName != "" && lists[id].typeName != typeName) {
        return false;
      }
      var used := ValidateUsage(id);
      if used {
        return false;
      }
      lists := lists - {id};
      return true;
    }

    method ValidateUsage(id: string) returns (used: bool)
      requires WellFormed(Stores())
      ensures used <==> Used(Stores(), id)
    {
      for n := 0 to |RULE_TABLES|
        invariant forall t, k | t in RULE_TABLES[..n] && k in rules[t] ::
            !NamedInConditions(rules[t][k], id) && !NamedAsWhitelist(t, rules[t][k], id)
      {
        var t := RULE_TABLES[n];
        used := AnyValue(rules[t], r => NamedInConditions(r, id) || NamedAsWhitelist(t, r, id));
        if used {
          return;
        }
      }
      AllTables();
      used := AnyValue(features, f => NamedByFeature(f, id));
    }

    method AddNamespacedListData(typeName: string, id: string, items: seq<string>) returns (ok: bool)
      requires WellFormed(Stores())
      modifies this`lists
      ensures WellFormed(Stores()) && ok == Accepted(lib, old(Stores()), AddData(typeName, id, items))
      ensures Stepped(lib, old(Stores()), AddData(typeName, id, items), Stores())
    {
      if id == "" || !lib.validItems(typeName, items) || id !in lists || lists[id].typeName != typeName {
        return false;
      }
      var added := NormalizeAll(typeName, items);
      if added == None {
        return false;
      }
      var itemsSet := ToSet(lists[id].data);
      for i := 0 to |added.value|
        invariant itemsSet == Items(lists[id].data) + Items(added.value[..i])
      {
        itemsSet := itemsSet + {added.value[i]};
      }
      assert added.value[..|added.value|] == added.value;
      if !lib.noIntersection(typeName, itemsSet) {
        return false;
      }
      var data := ToSlice(itemsSet);
      lists := lists[id := lists[id].(data := data)];
      return true;
    }

    method RemoveNamespacedListData(typeName: string, id: string, items: seq<string>) returns (ok: bool)
      requires WellFormed(Stores())
      modifies this`lists
      ensures WellFormed(Stores()) && ok == Accepted(lib, old(Stores()), RemoveData(typeName, id, items))
      ensures Stepped(lib, old(Stores()), RemoveData(typeName, id, items), Stores())
    {
      if id == "" || !lib.validItems(typeName, items) || id !in lists || lists[id].typeName != typeName {
        return false;
      }
      var removed := NormalizeAll(typeName, items);
      if removed == None {
        return false;
      }
      var before := ToSet(lists[id].data);
      var itemsSet, itemsNotInList := Without(before, removed.value);
      if |itemsNotInList| > 0 {
        return false;
      }
      SomethingLeft(before, Items(removed.value));
      var data := ToSlice(itemsSet);
      if |data| == 0 {
        return false;
      }
      lists := lists[id := lists[id].(data := data)];
      return true;
    }

    /** The removal loop: a second removal of an item finds it missing. */
    method Without(was: set<string>, gone: seq<string>) returns (rest: set<string>, missing: seq<string>)
      ensures rest == was - Items(gone)
      ensures missing == [] <==> NoDup(gone) && Items(gone) <= was
    {
      rest, missing := was, [];
      for i := 0 to |gone|
        invariant rest == was - Items(gone[..i])
        invariant missing == [] <==> NoDup(gone[..i]) && Items(gone[..i]) <= was
      {
        assert gone[..i + 1] == gone[..i] + [gone[i]];
        Extended(gone[..i], gone[i]);
        if gone[i] in rest {
          rest := rest - {gone[i]};
        } else {
          missing := missing + [gone[i]];
        }
      }
      assert gone[..|gone|] == gone;
    }
  }

  lemma SomethingLeft(whole: set<string>, part: set<string>)
    requires part <= whole
    ensures part < whole <==> whole - part != {}
  {
    if whole - part == {} {
      assert forall x | x in whole :: x !in whole - part;
    }
  }

  lemma Extended(s: seq<string>, x: string)
    ensures Items(s + [x]) == Items(s) + {x}
    ensures NoDup(s + [x]) <==> NoDup(s) && x !in s
  {
    var t := s + [x];
    assert t[|s|] == x;
    assert forall i | 0 <= i < |s| :: t[i] == s[i];
  }

  lemma AllTables()
    ensures RULE_TABLES[..|RULE_TABLES|] == RULE_TABLES && NoDup(RULE_TABLES)
    ensures forall t: TableName :: t in RULE_TABLES
  {
    assert RULE_TABLES[..|RULE_TABLES|] == RULE_TABLES;
    forall t: TableName ensures t in RULE_TABLES {
      match t {
        case DCM_RULE => assert RULE_TABLES[0] == t;
        case FIRMWARE_RULE => assert RULE_TABLES[1] == t;
        case FIRMWARE_RULE_TEMPLATE => assert RULE_TABLES[2] == t;
        case TELEMETRY_RULES => assert RULE_TABLES[3] == t;
        case TELEMETRY_TWO_RULES => assert RULE_TABLES[4] == t;
        case FEATURE_CONTROL_RULE => assert RULE_TABLES[5] == t;
        case SETTING_RULES => assert RULE_TABLES[6] == t;
      }
    }
  }

  method ToSet(s: seq<string>) returns (r: set<string>)
    ensures r == Items(s)
  {
    r := {};
    for i := 0 to |s|
      invariant r == Items(s[..i])
    {
      r := r + {s[i]};
    }
  }

  /** The elements of a set in any order. */
  method ToSlice(s: set<string>) returns (r: seq<string>)
    ensures NoDup(r) && Items(r) == s
    ensures r == [] <==> s == {}
  {
    r := [];
    var rest := s;
    while rest != {}
      invariant NoDup(r) && rest <= s && Items(r) == s - rest
      decreases |rest|
    {
      var x :| x in rest;
      Extended(r, x);
      r := r + [x];
      rest := rest - {x};
    }
    assert r != [] ==> r[0] in Items(r);
  }

  // ---- no name is left dangling

  /** After a rename whatever named the old list names the new one; all other names are as before, and
      whitelists are not touched. */
  lemma RenameMovesNames(s: State, was: string, now: string, id: string)
    requires WellFormed(s) && was != now
    ensures var after := RenamedReferences(s, was, now);
            && (InConditions(after, id) <==> id != was && (InConditions(s, id) || (id == now && InConditions(s, was))))
            && (InFeatures(after, id) <==> id != was && (InFeatures(s, id) || (id == now && InFeatures(s, was))))
            && (AsWhitelist(after, id) <==> AsWhitelist(s, id))
  {
    var after := RenamedReferences(s, was, now);
    forall t: TableName, k | k in s.rules[t]
      ensures NamedInConditions(after.rules[t][k], id) <==>
              var r := s.rules[t][k];
              id != was && (NamedInConditions(r, id) || (id == now && NamedInConditions(r, was)))
      ensures NamedAsWhitelist(t, after.rules[t][k], id) <==> NamedAsWhitelist(t, s.rules[t][k], id)
    {
      RuleMovesNames(s.rules[t][k], was, now, id);
    }
    InConditionsMoves(s, after, was, now, id);
    WhitelistsStay(s, after, id);
    InFeaturesMoves(s, after, was, now, id);
  }

  lemma RuleMovesNames(r: XRule, was: string, now: string, id: string)
    requires was != now
    ensures NamedInConditions(RenamedRule(r, was, now), id) <==>
            id != was && (NamedInConditions(r, id) || (id == now && NamedInConditions(r, was)))
  {
    var renamed := RenamedRule(r, was, now);
    forall i | 0 <= i < |r.conditions|
      ensures Refers(renamed.conditions[i], id) <==>
              id != was && (Refers(r.conditions[i], id) || (id == now && Refers(r.conditions[i], was)))
    {
    }
  }

  lemma InConditionsMoves(s: State, after: State, was: string, now: string, id: string)
    requires WellFormed(s) && WellFormed(after) && was != now
    requires forall t: TableName :: after.rules[t].Keys == s.rules[t].Keys
    requires forall t: TableName, k | k in s.rules[t] :: NamedInConditions(after.rules[t][k], id) <==>
                 var r := s.rules[t][k];
                 id != was && (NamedInConditions(r, id) || (id == now && NamedInConditions(r, was)))
    ensures InConditions(after, id) <==> id != was && (InConditions(s, id) || (id == now && InConditions(s, was)))
  {
    hide NamedInConditions;
  }

  lemma WhitelistsStay(s: State, after: State, id: string)
    requires WellFormed(s) && WellFormed(after)
    requires forall t: TableName :: after.rules[t].Keys == s.rules[t].Keys
    requires forall t: TableName, k | k in s.rules[t] ::
                 NamedAsWhitelist(t, after.rules[t][k], id) <==> NamedAsWhitelist(t, s.rules[t][k], id)
    ensures AsWhitelist(after, id) <==> AsWhitelist(s, id)
  {
    hide NamedAsWhitelist;
  }

  lemma InFeaturesMoves(s: State, after: State, was: string, now: string, id: string)
    requires was != now && after.features == RenamedFeatures(s.features, was, now)
    ensures InFeatures(after, id) <==> id != was && (InFeatures(s, id) || (id == now && InFeatures(s, was)))
  {
    assert forall k | k in s.features :: NamedByFeature(after.features[k], id) <==>
        id != was && (NamedByFeature(s.features[k], id) || (id == now && NamedByFeature(s.features[k], was)));
  }

  /** Renaming back undoes a rename exactly when nothing named the new list before: names that were
      already there cannot be told from those that were moved. */
  lemma RenameAndBack(s: State, was: string, now: string)
    requires WellFormed(s) && was != now
    ensures RenamedReferences(RenamedReferences(s, was, now), now, was) == s <==>
        !InConditions(s, now) && !InFeatures(s, now)
  {
    hide RenamedReferences, InConditions, InFeatures;
    RenamedIsWellFormed(s, was, now);
    RenameMovesNames(RenamedReferences(s, was, now), now, was, now);
    if !InConditions(s, now) && !InFeatures(s, now) {
      RulesComeBack(s, was, now);
      FeaturesComeBack(s, was, now);
    }
  }

  lemma RenamedIsWellFormed(s: State, was: string, now: string)
    requires WellFormed(s)
    ensures WellFormed(RenamedReferences(s, was, now))
    ensures RenamedReferences(RenamedReferences(s, was, now), now, was).lists == s.lists
  {
  }

  lemma RulesComeBack(s: State, was: string, now: string)
    requires WellFormed(s) && was != now && !InConditions(s, now)
    ensures RenamedReferences(RenamedReferences(s, was, now), now, was).rules == s.rules
  {
    var back := RenamedReferences(RenamedReferences(s, was, now), now, was);
    forall t: TableName ensures back.rules[t] == s.rules[t] {
      forall k | k in s.rules[t] ensures back.rules[t][k] == s.rules[t][k] {
        RuleAndBack(s.rules[t][k], was, now);
      }
    }
  }

  lemma FeaturesComeBack(s: State, was: string, now: string)
    requires was != now && !InFeatures(s, now)
    ensures RenamedReferences(RenamedReferences(s, was, now), now, was).features == s.features
  {
    assert forall k | k in s.features :: !NamedByFeature(s.features[k], now);
  }

  lemma RuleAndBack(r: XRule, was: string, now: string)
    requires was != now && !NamedInConditions(r, now)
    ensures RenamedRule(RenamedRule(r, was, now), now, was) == r
  {
    var back := RenamedRule(RenamedRule(r, was, now), now, was);
    forall i | 0 <= i < |r.conditions| ensures back.conditions[i] == r.conditions[i] {
      assert !Refers(r.conditions[i], now);
    }
    assert back.conditions == r.conditions;
  }

  /** The names of a list that lists, not rules, decide about. */
  predicate SameNames(s: State, after: State) {
    after.rules == s.rules && after.features == s.features
  }

  predicate NamedByRule(t: TableName, x: XRule, id: string) {
    NamedInConditions(x, id) || NamedAsWhitelist(t, x, id)
  }

  /** An edit whose new version names the list. */
  predicate NamesInEdit(r: Request, id: string) {
    match r
    case EditRule(t, _, Some(x)) => NamedByRule(t, x, id)
    case EditFeature(_, Some(f)) => NamedByFeature(f, id)
    case _ => false
  }

  /** The two ways to leave a name dangling: renaming a list that an environment-model firmware rule has as its
      whitelist, and an edit that is the first to name a list which does not exist. */
  ghost predicate Breaks(lib: Library, s: State, r: Request, id: string)
    requires WellFormed(s)
  {
    || (Accepted(lib, s, r) && Renames(r) && id == r.list.id && id in s.lists && AsWhitelist(s, id))
    || (NamesInEdit(r, id) && id !in s.lists && !Used(s, id))
  }

  predicate IsEdit(r: Request) {
    r.EditRule? || r.EditFeature?
  }

  /** From any stores: a request leaves a name dangling that did not dangle before exactly when it breaks that
      name. Whatever resolved keeps resolving otherwise, however many other names dangle. */
  lemma StepBreaks(lib: Library, s: State, r: Request, after: State, id: string)
    requires WellFormed(s) && Stepped(lib, s, r, after)
    ensures WellFormed(after)
    ensures Dangles(after, id) && !Dangles(s, id) <==> Breaks(lib, s, r, id)
    ensures !IsEdit(r) ==> (AsWhitelist(after, id) <==> AsWhitelist(s, id))
  {
    hide Normalized, RenamedTable, RenamedFeatures;
    if r.EditRule? {
      RuleEditUses(lib, s, r, after, id);
    } else if r.EditFeature? {
      FeatureEditUses(lib, s, r, after, id);
    } else if !Accepted(lib, s, r) {
    } else if Renames(r) {
      RenameUses(lib, s, r, after, id);
    } else {
      assert SameNames(s, after);
      SameNamesSameUse(s, after);
      assert r.Delete? ==> after.lists == s.lists - {r.id} && !Used(s, r.id);
      assert !r.Delete? ==> s.lists.Keys <= after.lists.Keys;
    }
  }

  lemma UsedIs(s: State, id: string)
    requires WellFormed(s)
    ensures Used(s, id) <==>
            (exists t: TableName, k | k in s.rules[t] :: NamedByRule(t, s.rules[t][k], id)) || InFeatures(s, id)
  {
    hide NamedInConditions, NamedAsWhitelist;
    if t: TableName, k :| k in s.rules[t] && NamedByRule(t, s.rules[t][k], id) {
      assert NamedInConditions(s.rules[t][k], id) || NamedAsWhitelist(t, s.rules[t][k], id);
    }
    if t: TableName, k :| k in s.rules[t] && NamedInConditions(s.rules[t][k], id) {
      assert NamedByRule(t, s.rules[t][k], id);
    }
    if t: TableName, k :| k in s.rules[t] && NamedAsWhitelist(t, s.rules[t][k], id) {
      assert NamedByRule(t, s.rules[t][k], id);
    }
  }

  lemma RuleEditUses(lib: Library, s: State, r: Request, after: State, id: string)
    requires WellFormed(s) && r.EditRule? && Stepped(lib, s, r, after)
    ensures WellFormed(after) && after.lists == s.lists
    ensures Used(after, id) ==> Used(s, id) || NamesInEdit(r, id)
    ensures NamesInEdit(r, id) ==> Used(after, id)
  {
    hide NamedInConditions, NamedAsWhitelist, Used;
    var t, k := r.table, r.key;
    assert forall u: TableName | u != t :: after.rules[u] == s.rules[u];
    UsedIs(s, id);
    UsedIs(after, id);
    if u: TableName, j :| j in after.rules[u] && NamedByRule(u, after.rules[u][j], id) {
      assert (u == t && j == k) || (j in s.rules[u] && NamedByRule(u, s.rules[u][j], id));
    }
    if NamesInEdit(r, id) {
      assert k in after.rules[t] && NamedByRule(t, after.rules[t][k], id);
    }
  }

  lemma FeatureEditUses(lib: Library, s: State, r: Request, after: State, id: string)
    requires WellFormed(s) && r.EditFeature? && Stepped(lib, s, r, after)
    ensures WellFormed(after) && after.lists == s.lists
    ensures Used(after, id) ==> Used(s, id) || NamesInEdit(r, id)
    ensures NamesInEdit(r, id) ==> Used(after, id)
  {
    hide NamedInConditions, NamedAsWhitelist, NamedByFeature;
    if j :| j in after.features && NamedByFeature(after.features[j], id) {
      assert j == r.key || (j in s.features && NamedByFeature(s.features[j], id));
    }
    if NamesInEdit(r, id) {
      assert r.key in after.features && NamedByFeature(after.features[r.key], id);
    }
  }

  lemma SameNamesSameUse(s: State, after: State)
    requires WellFormed(s) && WellFormed(after) && SameNames(s, after)
    ensures forall id :: (Used(after, id) <==> Used(s, id)) && (AsWhitelist(after, id) <==> AsWhitelist(s, id))
  {
  }

  lemma RenameUses(lib: Library, s: State, r: Request, after: State, id: string)
    requires WellFormed(s) && Accepted(lib, s, r) && Renames(r) && Effect(lib, s, r, after)
    ensures WellFormed(after) && after.lists.Keys == s.lists.Keys - {r.list.id} + {r.newId}
    ensures id != r.newId ==> (Used(after, id) <==> if id == r.list.id then AsWhitelist(s, id) else Used(s, id))
    ensures AsWhitelist(after, id) <==> AsWhitelist(s, id)
  {
    var was, now := r.list.id, r.newId;
    var renamed := RenamedReferences(s, was, now);
    assert SameNames(renamed, after) && WellFormed(after);
    SameNamesSameUse(renamed, after);
    RenameMovesNames(s, was, now, id);
  }

  /** No name that is not a blank is broken. */
  ghost predicate Harmless(lib: Library, s: State, r: Request)
    requires WellFormed(s)
  {
    forall id | !Blank(id) :: !Breaks(lib, s, r, id)
  }

  /** Where every name resolves, a request keeps it so exactly when it breaks none. */
  lemma StepKeepsResolving(lib: Library, s: State, r: Request, after: State)
    requires WellFormed(s) && Resolving(s) && Stepped(lib, s, r, after)
    ensures WellFormed(after)
    ensures Resolving(after) <==> Harmless(lib, s, r)
  {
    hide Dangles, Breaks, Stepped;
    StepBreaks(lib, s, r, after, "");
    forall id ensures WellFormed(after) && (Dangles(after, id) && !Dangles(s, id) <==> Breaks(lib, s, r, id)) {
      StepBreaks(lib, s, r, after, id);
    }
  }

  /** A rename deletes a list of another type that has the new name, and leaves every other list alone. */
  lemma RenameSparesOthers(lib: Library, s: State, r: Request, after: State)
    requires WellFormed(s) && Accepted(lib, s, r) && Renames(r) && Effect(lib, s, r, after)
    ensures (forall id | id in s.lists && id != r.list.id :: id in after.lists && after.lists[id] == s.lists[id]) <==>
            r.newId !in s.lists
  {
    assert after.lists[r.newId].typeName == r.list.typeName;
  }

  /** The states a run of requests goes through. */
  ghost predicate Trace(lib: Library, states: seq<State>, requests: seq<Request>) {
    && |states| == |requests| + 1
    && (forall i | 0 <= i < |states| :: WellFormed(states[i]))
    && forall i | 0 <= i < |requests| :: Stepped(lib, states[i], requests[i], states[i + 1])
  }

  /** Over any run, from any stores and any point of it: a name that does not dangle there never dangles
      afterwards exactly when no later request breaks it. What other names do does not matter. */
  lemma RunBreaks(lib: Library, states: seq<State>, requests: seq<Request>, id: string, m: nat)
    requires Trace(lib, states, requests) && m < |states| && !Dangles(states[m], id)
    ensures (forall n | m <= n < |states| :: !Dangles(states[n], id)) <==>
            forall n | m <= n < |requests| :: !Breaks(lib, states[n], requests[n], id)
  {
    hide Dangles, Stepped, Breaks, WellFormed;
    forall n | m <= n < |requests|
      ensures Dangles(states[n + 1], id) && !Dangles(states[n], id) <==> Breaks(lib, states[n], requests[n], id)
    {
      StepBreaks(lib, states[n], requests[n], states[n + 1], id);
    }
    if forall n | m <= n < |states| :: !Dangles(states[n], id) {
      forall n | m <= n < |requests| ensures !Breaks(lib, states[n], requests[n], id) {
        assert !Dangles(states[n + 1], id);
      }
    }
    if forall n | m <= n < |requests| :: !Breaks(lib, states[n], requests[n], id) {
      forall n | m <= n < |states| ensures !Dangles(states[n], id) {
        UnbrokenStays(lib, states, requests, id, m, n);
      }
    }
  }

  lemma {:induction false} UnbrokenStays(lib: Library, states: seq<State>, requests: seq<Request>, id: string, m: nat,
      n: nat)
    requires Trace(lib, states, requests) && m <= n < |states| && !Dangles(states[m], id)
    requires forall i | m <= i < |requests| :: !Breaks(lib, states[i], requests[i], id)
    ensures !Dangles(states[n], id)
    decreases n
  {
    hide Dangles, Stepped, Breaks, WellFormed;
    if n > m {
      UnbrokenStays(lib, states, requests, id, m, n - 1);
      StepBreaks(lib, states[n - 1], requests[n - 1], states[n], id);
    }
  }

  /** Where every name resolves at the start, every name resolves at all times exactly when no request breaks
      one. */
  lemma RunKeepsResolving(lib: Library, states: seq<State>, requests: seq<Request>)
    requires Trace(lib, states, requests) && Resolving(states[0])
    ensures (forall n | 0 <= n < |states| :: Resolving(states[n])) <==>
            forall n | 0 <= n < |requests| :: Harmless(lib, states[n], requests[n])
  {
    hide Resolving, Stepped, Harmless, WellFormed;
    if forall n | 0 <= n < |states| :: Resolving(states[n]) {
      forall n | 0 <= n < |requests| ensures Harmless(lib, states[n], requests[n]) {
        StepKeepsResolving(lib, states[n], requests[n], states[n + 1]);
      }
    }
    if forall n | 0 <= n < |requests| :: Harmless(lib, states[n], requests[n]) {
      forall n | 0 <= n < |states| ensures Resolving(states[n]) {
        HarmlessResolves(lib, states, requests, n);
      }
    }
  }

  lemma {:induction false} HarmlessResolves(lib: Library, states: seq<State>, requests: seq<Request>, n: nat)
    requires Trace(lib, states, requests) && Resolving(states[0]) && n < |states|
    requires forall i | 0 <= i < |requests| :: Harmless(lib, states[i], requests[i])
    ensures Resolving(states[n])
  {
    hide Resolving, Stepped, Harmless, WellFormed;
    if n > 0 {
      HarmlessResolves(lib, states, requests, n - 1);
      StepKeepsResolving(lib, states[n - 1], requests[n - 1], states[n]);
    }
  }

  /** Over a run of requests about lists alone, a name that is no whitelist at the start and does not dangle
      there never dangles. */
  lemma {:induction false} ListRunKeepsName(lib: Library, states: seq<State>, requests: seq<Request>, id: string,
      n: nat)
    requires Trace(lib, states, requests) && n <= |requests| && forall r | r in requests :: !IsEdit(r)
    requires !Dangles(states[0], id)
    requires AsWhitelist(states[0], id) ==> forall r | r in requests && Renames(r) :: r.list.id != id
    ensures !Dangles(states[n], id) && (AsWhitelist(states[n], id) <==> AsWhitelist(states[0], id))
  {
    hide Dangles, Stepped, WellFormed, AsWhitelist;
    if n > 0 {
      ListRunKeepsName(lib, states, requests, id, n - 1);
      StepBreaks(lib, states[n - 1], requests[n - 1], states[n], id);
      assert requests[n - 1] in requests;
    }
  }

  /** For requests about lists alone it is enough that none renames a list that is a whitelist at the start. */
  lemma ListRunKeepsResolving(lib: Library, states: seq<State>, requests: seq<Request>, n: nat)
    requires Trace(lib, states, requests) && Resolving(states[0]) && n <= |requests|
    requires forall r | r in requests :: !IsEdit(r) && (Renames(r) ==> !AsWhitelist(states[0], r.list.id))
    ensures Resolving(states[n]) && forall id :: AsWhitelist(states[n], id) <==> AsWhitelist(states[0], id)
  {
    hide Stepped, WellFormed, Dangles, AsWhitelist;
    forall id | !Blank(id) ensures !Dangles(states[n], id) {
      ListRunKeepsName(lib, states, requests, id, n);
    }
    forall id ensures AsWhitelist(states[n], id) <==> AsWhitelist(states[0], id) {
      WhitelistsStayOverRun(lib, states, requests, id, n);
    }
  }

  lemma {:induction false} WhitelistsStayOverRun(lib: Library, states: seq<State>, requests: seq<Request>, id: string,
      n: nat)
    requires Trace(lib, states, requests) && n <= |requests| && forall r | r in requests :: !IsEdit(r)
    ensures AsWhitelist(states[n], id) <==> AsWhitelist(states[0], id)
  {
    hide Dangles, Stepped, WellFormed, AsWhitelist, Breaks;
    if n > 0 {
      WhitelistsStayOverRun(lib, states, requests, id, n - 1);
      StepBreaks(lib, states[n - 1], requests[n - 1], states[n], id);
      assert requests[n - 1] in requests;
    }
  }

  /** A rename that leaves a whitelist dangling. */
  lemma WhitelistLeftDangling(lib: Library, after: State)
    requires lib == Library(l => true, (t, i) => true, (t, i) => true, m => None)
    requires Stepped(lib, OneWhitelist(), Update(NamespacedList("old", "IP_LIST", ["10.0.0.1"]), "new"), after)
    ensures Resolving(OneWhitelist()) && WellFormed(after) && !Resolving(after)
  {
    hide RenamedTable, RenamedFeatures, Effect, Resolving, AsWhitelist, Used;
    var s, r := OneWhitelist(), Update(NamespacedList("old", "IP_LIST", ["10.0.0.1"]), "new");
    assert "new"[0] in "new" && "old"[0] in "old";
    OneWhitelistResolves();
    StepBreaks(lib, s, r, after, "old");
    DanglingName(after, "old");
  }

  lemma DanglingName(s: State, id: string)
    requires WellFormed(s) && Dangles(s, id) && !Blank(id)
    ensures !Resolving(s)
  {
  }

  lemma OneWhitelistResolves()
    ensures Resolving(OneWhitelist()) && AsWhitelist(OneWhitelist(), "old")
  {
    var s := OneWhitelist();
    assert NamedAsWhitelist(FIRMWARE_RULE, s.rules[FIRMWARE_RULE]["r"], "old");
    forall id | id != "old" ensures !Used(s, id) {
      forall t: TableName, k | k in s.rules[t] ensures s.rules[t][k] == XRule("rule", [], ENV_MODEL_RULE, "old") {
        assert s.rules[t] == OneRuleIfFirmware(t);
      }
      assert !InConditions(s, id) && !AsWhitelist(s, id) && !InFeatures(s, id);
    }
  }

  /** A rename that removes a list of another type. */
  lemma OtherTypeOverwritten(lib: Library, after: State)
    requires lib == Library(l => true, (t, i) => true, (t, i) => true, m => None)
    requires Stepped(lib, TwoLists(), Update(NamespacedList("old", "IP_LIST", ["10.0.0.1"]), "new"), after)
    ensures "new" in TwoLists().lists && TwoLists().lists["new"] !in after.lists.Values
  {
    assert "new"[0] in "new";
    assert after.lists == map["new" := NamespacedList("new", "IP_LIST", ["10.0.0.1"])];
  }

  function TwoLists(): (s: State)
    ensures WellFormed(s)
  {
    AllTables();
    State(map t | t in RULE_TABLES :: map[], map[],
          map["old" := NamespacedList("old", "IP_LIST", ["10.0.0.1"]), "new" := NamespacedList("new", MAC_LIST, [])])
  }

  function OneWhitelist(): (s: State)
    ensures WellFormed(s) && forall t: TableName :: s.rules[t] == OneRuleIfFirmware(t)
  {
    AllTables();
    State(map t | t in RULE_TABLES :: OneRuleIfFirmware(t), map[],
          map["old" := NamespacedList("old", "IP_LIST", ["10.0.0.1"])])
  }

  function OneRuleIfFirmware(t: TableName): map<string, XRule> {
    if t == FIRMWARE_RULE then map["r" := XRule("rule", [], ENV_MODEL_RULE, "old")] else map[]
  }

  // ---- adding and removing undo each other

  /** An accepted addition is undone by removing the same items exactly when the items were distinct and
      new, and the list was not empty before. */
  lemma AddThenRemove(lib: Library, s: State, typeName: string, id: string, items: seq<string>, added: State,
      after: State)
    requires WellFormed(s) && WellFormed(added)
    requires Accepted(lib, s, AddData(typeName, id, items)) && Stepped(lib, s, AddData(typeName, id, items), added)
    requires Stepped(lib, added, RemoveData(typeName, id, items), after)
    ensures var was, novel := Items(s.lists[id].data), Items(Normalized(lib, typeName, items).value);
            Accepted(lib, added, RemoveData(typeName, id, items)) && Items(after.lists[id].data) == was <==>
            NoDup(Normalized(lib, typeName, items).value) && novel !! was && was != {}
  {
    var was, novel := Items(s.lists[id].data), Items(Normalized(lib, typeName, items).value);
    assert Items(added.lists[id].data) == was + novel;
    SomethingLeft(was + novel, novel);
    assert was + novel - novel == was - novel;
    assert was - novel == was <==> novel !! was;
  }

  /** An accepted removal is undone by adding the same items whenever the list as it was is acceptable. */
  lemma RemoveThenAdd(lib: Library, s: State, typeName: string, id: string, items: seq<string>, removed: State,
      after: State)
    requires WellFormed(s) && WellFormed(removed)
    requires Accepted(lib, s, RemoveData(typeName, id, items)) &&
        Stepped(lib, s, RemoveData(typeName, id, items), removed)
    requires Stepped(lib, removed, AddData(typeName, id, items), after)
    ensures Accepted(lib, removed, AddData(typeName, id, items)) <==>
        lib.noIntersection(typeName, Items(s.lists[id].data))
    ensures Accepted(lib, removed, AddData(typeName, id, items)) ==>
        Items(after.lists[id].data) == Items(s.lists[id].data)
  {
    var was, gone := Items(s.lists[id].data), Items(Normalized(lib, typeName, items).value);
    assert was - gone + gone == was;
  }
}
